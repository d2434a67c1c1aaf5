# Spring movement profiles and font glyph cache, in Dafny

This project models two parts of the Spring RTS engine and proves properties of them.

**Movement profiles** (`MoveDefHandler.cpp`). A `MoveDef` is the movement class a unit type is assigned: its speed-mod
class (tank, bot, hovercraft, ship), terrain class, footprint, depth and slope limits. The model covers:

- the table constructor that derives a profile from its Lua table;
- the depth speed modifier;
- the per-profile checksum;
- the raw path search, which walks the squares between two map blocks from both ends at once, running a terrain test
  and then an object (blocking-map) test on each;
- the rectangle tests;
- `MoveDefHandler::Init`, which loads every profile table into a fixed-size array, and the lookup by name.

**Font texture glyph cache** (`CFontTexture.cpp`). The model covers:

- the hash that keys kerning pairs, and the kerning cache;
- the glyph lookup;
- `LoadWantedGlyphs`: it filters the wanted characters, then tries the font's own face and replacement faces in turn
  over a worklist that shrinks by swap-removal, and last loads glyph 0 for whatever was found nowhere;
- `LoadGlyph`, with its duplicate-glyph shortcut;
- the atlas update and upload flags, with the loop that ORs the shadow bitmap into the atlas.

Modules:

| module | file | contents |
|---|---|---|
| `Wrappers` | `wrappers.dfy` | `Option` and `Result` |
| `MoveDefs` | `movedefs.dfy` | profile datatype, Lua table shape, the table constructor, `ParseSpeedModClass`, `DegreesToMaxSlope`, `GetDepthMod` |
| `MoveDefCheckSum` | `checksum.dfy` | `CalcCheckSum` over a profile's bytes, as a loop proved against an XOR fold |
| `LineWalk` | `linewalk.dfy` | `StepFunc` and `walkPath`, proved against a reference walk defined on offsets, and the theorem that the two cursors meet near the middle |
| `RawSearch` | `rawsearch.dfy` | the terrain and object tests as stateful functions, `DoRawSearch`, `TestMoveSquareRange`, `TestMovePositionForObjects` |
| `MoveDefRegistry` | `registry.dfy` | the `MoveDefHandler` class: `Init` and `GetMoveDefByName` |
| `FontGlyphs` | `fontglyphs.dfy` | `GetKerningHash`, the `FontTexture` class with its glyph map, failure counts, kerning cache, atlas bitmaps and flags |

Where the source changes state, the model is imperative and each method is proved against a specification:

- `Init` and its loop fill a fixed-capacity `array<MoveDef>`. Afterwards the array slots, the name map, the largest
  sizes and the checksums are folds over the loaded profiles, and separate lemmas prove what those folds mean.
- `walkPath` is a `while` loop proved equal to a recursive reference walk. The lemmas about that walk prove the
  counter never runs out (the loop ends only by `break`), every square tested lies on the schedule, and the verdict is
  true exactly when every tested square passes.
- The glyph methods update the `FontTexture` fields in place, and the OR-merge loop works in place on an
  `array<bv32>`.

## Model

| member | source | states |
|---|---|---|
| `MoveDefs.ToLower` | rts/Sim/MoveTypes/MoveDefHandler.cpp:181 | the lower-cased name keeps its length, and each character is the C-locale lower case of the one in its place |
| `MoveDefs.DegreesToMaxSlope` | rts/Sim/MoveTypes/MoveDefHandler.cpp:70-80 | for any angle, the slope limit lies in [0, 1] |
| `MoveDefs.ParseSpeedModClass` | rts/Sim/MoveTypes/MoveDefHandler.cpp:82-100 | an explicit class other than -1 is clamped into Tank..Ship; otherwise Ship exactly when the name contains "boat" or "ship", Hover exactly when it contains "hover" and neither of those, Tank when "tank" is the first to match, and KBot when none matches |
| `MoveDefs.ContainsIff` | rts/Sim/MoveTypes/MoveDefHandler.cpp:90-97 | the `find != npos` test holds exactly when the pattern occurs at some position of the name |
| `MoveDefs.NewMoveDef` | rts/Sim/MoveTypes/MoveDefHandler.cpp:180-294 | the constructor, assigning field by field, builds exactly the profile that the declarative `MoveDefOf` describes |
| `MoveDefs.MoveDefOf` | rts/Sim/MoveTypes/MoveDefHandler.cpp:180-294 | the declarative profile of a table (no contract of its own): the lower-cased name, the parsed class, the terrain class and sides below, the class-dependent depth, depth parameters, slope limit and submarine flag, and every other field from its key or its default |
| `MoveDefs.TerrainClassOf` | rts/Sim/MoveTypes/MoveDefHandler.cpp:265-277 | the terrain class as a definition (no contract of its own): Mixed, else Water, else Land, else the default, by the strongest of the three tests that holds |
| `MoveDefs.FootprintSide` | rts/Sim/MoveTypes/MoveDefHandler.cpp:282-288 | one footprint side as a definition (no contract of its own): max(1, configured) times the scale, minus one when even |
| `MoveDefs.SpeedModClassFields` | rts/Sim/MoveTypes/MoveDefHandler.cpp:190-218 | only tanks and bots get clamped depth parameters; depth is the minimum water depth for ships and the maximum for the others; ships keep the default slope limit; only ships read the submarine flag |
| `MoveDefs.TerrainClassTests` | rts/Sim/MoveTypes/MoveDefHandler.cpp:268-277 | the three tests overwrite one another, so the strongest condition that holds decides the terrain class |
| `MoveDefs.Footprint` | rts/Sim/MoveTypes/MoveDefHandler.cpp:279-291 | each side is the configured side (at least 1) times the footprint scale, rounded down to odd; the half side is the side shifted right by one; footprintZ defaults to the x side |
| `MoveDefs.FootprintShape` | rts/Sim/MoveTypes/MoveDefHandler.cpp:282-293 | every profile built from a table has odd sides of at least 1, each equal to twice its half side plus one, and a square footprint when footprintZ is absent |
| `MoveDefs.FootprintSideOdd` | rts/Sim/MoveTypes/MoveDefHandler.cpp:285-288 | the rounded side is odd, at least 1, at most the scaled side, and at most one below it |
| `MoveDefs.SpeedMultsFloor` | rts/Sim/MoveTypes/MoveDefHandler.cpp:220-222 | all three mobile speed multipliers of a built profile are at least 0.01 |
| `MoveDefs.DepthModParamsClamped` | rts/Sim/MoveTypes/MoveDefHandler.cpp:193-201 | tanks and bots get non-negative coefficients, maxScale at least 0.01 and 0 <= minHeight <= maxHeight; hovercraft and ships keep the defaults; either way the parameters meet `GetDepthMod`'s precondition |
| `MoveDefs.SpeedClassConsequences` | rts/Sim/MoveTypes/MoveDefHandler.cpp:181-259 | a built profile's class is parsed from its lower-cased name; it follows the ground exactly when it is a tank or bot; its depth is the ship's minimum or the others' maximum water depth; non-ships keep the default submarine flag; its slope limit lies in [0, 1] |
| `MoveDefs.TerrainClassCases` | rts/Sim/MoveTypes/MoveDefHandler.cpp:265-277 | hovercraft are Land; ground units are Mixed when they may wade, else Water when they need water, else Land; ships are Mixed when they may beach, else Water when they need depth, else keep the default |
| `MoveDefs.GetDepthMod` | rts/Sim/MoveTypes/MoveDefHandler.cpp:529-555 | above -minHeight the modifier is 1; below -maxHeight it is 0; in between it is the reciprocal of the depth polynomial clamped to [0.01, maxScale], so it lies in [1/maxScale, 100] |
| `MoveDefs.ReciprocalBounds` | rts/Sim/MoveTypes/MoveDefHandler.cpp:546-554 | a scale clamped to [0.01, maxScale] has its reciprocal in [1/maxScale, 100] |
| `MoveDefCheckSum.CalcCheckSum` | rts/Sim/MoveTypes/MoveDefHandler.cpp:557-573 | the loop returns `CheckSum` of the bytes: the XOR over every byte of ((offset + 1) * 256 * byte) mod 2^32 |
| `MoveDefCheckSum.CheckSum` | rts/Sim/MoveTypes/MoveDefHandler.cpp:557-573 | the checksum as a fold (no contract of its own): the XOR, from the first byte on, of each byte's term ((offset + 1) * 256 * byte) mod 2^32 |
| `MoveDefCheckSum.CheckSumOfZeros` | rts/Sim/MoveTypes/MoveDefHandler.cpp:568-570 | an all-zero byte range sums to zero |
| `MoveDefCheckSum.CheckSumPrefix` | rts/Sim/MoveTypes/MoveDefHandler.cpp:568-570 | bytes after the first n do not affect the sum of the first n |
| `MoveDefCheckSum.CheckSumAppend` | rts/Sim/MoveTypes/MoveDefHandler.cpp:568-570 | one more byte XORs exactly its own term, at the next offset, into the sum |
| `MoveDefCheckSum.CheckSumUpdate` | rts/Sim/MoveTypes/MoveDefHandler.cpp:568-570 | changing byte j changes the sum of the first n bytes only when j < n, and then XORs the old term of byte j out of that sum and the new term in |
| `MoveDefCheckSum.TermInjective` | rts/Sim/MoveTypes/MoveDefHandler.cpp:570 | at an offset below 65535, two different byte values give two different terms |
| `MoveDefCheckSum.OneByteChanges` | rts/Sim/MoveTypes/MoveDefHandler.cpp:568-570 | changing one byte, at an offset below 65535, always changes the checksum |
| `MoveDefCheckSum.TwoByteCollision` | rts/Sim/MoveTypes/MoveDefHandler.cpp:568-570 | a change spread over two bytes can leave the checksum as it was: [2, 0] and [0, 1] both sum to 512 |
| `LineWalk.WalkPath` | rts/Sim/MoveTypes/MoveDefHandler.cpp:328-365 | the two-cursor loop returns the verdict and leaves the test's state exactly as the reference walk does |
| `LineWalk.StepCursors` | rts/Sim/MoveTypes/MoveDefHandler.cpp:354-361 | one round moves both cursors, both error terms and the step counter to the next round; the counter stays at least 1 while the cursors are apart |
| `LineWalk.StepFunc` | rts/Sim/MoveTypes/MoveDefHandler.cpp:321-326 | the step as a definition (no contract of its own): x advances when err.y >= 0 and y when err.y <= 0, both when it is zero, and err.x loses dif.y and gains dif.x accordingly |
| `LineWalk.StepMoves` | rts/Sim/MoveTypes/MoveDefHandler.cpp:321-326 | `StepFunc` with the doubled deltas moves each cursor from its square in round k to its square in round k + 1; a round advances one axis, or both on a vertex crossing |
| `LineWalk.RoundAdvances` | rts/Sim/MoveTypes/MoveDefHandler.cpp:354-361 | while the cursors are apart, a round's steps take them one round on, without overshooting the total distance |
| `LineWalk.WalkFromUnfold` | rts/Sim/MoveTypes/MoveDefHandler.cpp:343-349 | a round ends the walk on a failed forward test, a failed reverse test or near cursors, and otherwise continues with the next round |
| `LineWalk.ApartBound` | rts/Sim/MoveTypes/MoveDefHandler.cpp:343-349 | while the cursors have not yet met, the round number is at most dx/2 + dy/2 and each cursor has gone at most half way along each axis |
| `LineWalk.OffsetsInvariant` | rts/Sim/MoveTypes/MoveDefHandler.cpp:321-361 | after k rounds the error term is dx - dy + 2(b dx - a dy) and lies strictly in (-2dy, 2dx); at least k axis steps have been taken; an axis of zero length is never stepped |
| `LineWalk.StaysInBox` | rts/Sim/MoveTypes/MoveDefHandler.cpp:343-361 | as long as no round has met, the cursors stay within half the distance on each axis, so the cursors meet within dx/2 + dy/2 rounds |
| `LineWalk.NearMeansNearOffs` | rts/Sim/MoveTypes/MoveDefHandler.cpp:348 | the stopping test on the two squares is the same as both offsets being within one square of the middle |
| `LineWalk.ScheduleClosed` | rts/Sim/MoveTypes/MoveDefHandler.cpp:344 | the j-th tested square is the forward cursor of round j/2 when j is even and the reverse cursor when j is odd |
| `LineWalk.SquaresOnSchedule` | rts/Sim/MoveTypes/MoveDefHandler.cpp:343-362 | the walk tests at most two squares per round of its budget, in schedule order |
| `LineWalk.WalkRunsTests` | rts/Sim/MoveTypes/MoveDefHandler.cpp:344-345 | the walk's final state is the test applied in order to the squares it visits; every square but the last passes, and the verdict is the last one's |
| `LineWalk.WalkMeets` | rts/Sim/MoveTypes/MoveDefHandler.cpp:347-349 | a walk that succeeds ends on a complete round whose two squares are within one square of each other |
| `LineWalk.WalkSchedule` | rts/Sim/MoveTypes/MoveDefHandler.cpp:331-344 | the walk tests between 1 and 2 (Chebyshev distance + 1) squares: the start first, then the end, then the cursors alternately |
| `LineWalk.WalkVerdict` | rts/Sim/MoveTypes/MoveDefHandler.cpp:328-365 | the walk succeeds exactly when every square it tests passes in order; a failure stops on the first failing square; a success ends on two near squares |
| `RawSearch.DoRawSearch` | rts/Sim/MoveTypes/MoveDefHandler.cpp:367-447 | the minimum speed modifier is FLT_MAX unless the terrain walk ran; the object walk runs only after a terrain stage that is off or passed; the verdict combines both stages; the blocking bits are the object walk's last, else BLOCK_NONE |
| `RawSearch.TerrainTest` | rts/Sim/MoveTypes/MoveDefHandler.cpp:375-381 | the terrain test as a definition (no contract of its own): an off-map square passes and keeps the minimum; an in-map square lowers it to its modifier and passes when that exceeds the threshold |
| `RawSearch.ObjStart` | rts/Sim/MoveTypes/MoveDefHandler.cpp:389-400 | the object test's starting state (no contract of its own): one temp number fetched, the collider's height, its in-water bit when below 0, and its own height and water states remembered |
| `RawSearch.ObjRect` | rts/Sim/MoveTypes/MoveDefHandler.cpp:406-409 | the tested rectangle (no contract of its own): the half sizes around the square, or the square alone when only the centre is tested, clamped to the map |
| `RawSearch.ObjTrack` | rts/Sim/MoveTypes/MoveDefHandler.cpp:413-435 | the submersion bookkeeping (no contract of its own): a submersible collider takes the square's max height; on a height change an underwater change fetches a new temp number and an in-water change sets the physical bit or clears the collidable one |
| `RawSearch.ObjectTest` | rts/Sim/MoveTypes/MoveDefHandler.cpp:405-440 | the object test as a definition (no contract of its own): track, query the blocking map over the rectangle with the current temp number, record the bits, pass when no structure bit is set |
| `RawSearch.TerrainMinimum` | rts/Sim/MoveTypes/MoveDefHandler.cpp:375-382 | a run of the terrain test never raises the running minimum; the result is at most every in-map modifier seen and is either the start value or one of them |
| `RawSearch.TerrainVerdict` | rts/Sim/MoveTypes/MoveDefHandler.cpp:376-381 | the terrain test passes a square exactly when it is off the map or its modifier exceeds the threshold, whatever the running minimum |
| `RawSearch.TerrainWalkVerdict` | rts/Sim/MoveTypes/MoveDefHandler.cpp:374-384 | the terrain walk passes exactly when every square it visits passes the threshold test, and a failure ends on a failing square |
| `RawSearch.TerrainWalkMinimum` | rts/Sim/MoveTypes/MoveDefHandler.cpp:369-383 | the reported minimum is at most every in-map modifier on the walk, and is FLT_MAX or one of them |
| `RawSearch.ObjectVerdict` | rts/Sim/MoveTypes/MoveDefHandler.cpp:437-439 | the object test records the bits it reads and passes exactly when they hold no structure bit |
| `RawSearch.ObjectStep` | rts/Sim/MoveTypes/MoveDefHandler.cpp:405-435 | the tested rectangle is clamped to the map, and is the full footprint when that fits; a new temp number is fetched exactly when a submersible collider changes height and underwater state; the underwater state is never updated; a set in-water bit stays set |
| `RawSearch.ObjectRun` | rts/Sim/MoveTypes/MoveDefHandler.cpp:396-435 | over any run of the object test, height and the remembered underwater state keep their initial values, the in-water bit once set stays set, and fetches never go down; a non-submersible collider's virtual object is untouched |
| `RawSearch.ObjectRefetch` | rts/Sim/MoveTypes/MoveDefHandler.cpp:389-424 | over the object walk, square i fetches a new temp number exactly when the collider is submersible, the height changes, and the square's underwater state differs from the collider's starting one |
| `RawSearch.ObjectWalkLastSquare` | rts/Sim/MoveTypes/MoveDefHandler.cpp:437-441 | the reported blocking bits are those read at the last square visited, and the object walk passes exactly when those have no structure bit |
| `RawSearch.RawSearchStages` | rts/Sim/MoveTypes/MoveDefHandler.cpp:372-442 | a failed terrain walk stops the object stage; with the terrain stage off the object stage always runs; the object verdict matches the reported bits |
| `RawSearch.TestMoveSquareRange` | rts/Sim/MoveTypes/MoveDefHandler.cpp:450-500 | the terrain scan covers the range widened by the half sizes; the blocking query runs only after a passing or skipped scan; the verdict and both reported values follow from those |
| `RawSearch.ScanRowPasses` | rts/Sim/MoveTypes/MoveDefHandler.cpp:478-483 | a row scan passes exactly when every square left in the row has a positive modifier, and its minimum is at most all of them |
| `RawSearch.ScanRowStops` | rts/Sim/MoveTypes/MoveDefHandler.cpp:478-483 | a failing row scan stops at the first non-positive square, after only passing ones |
| `RawSearch.ScanRowsPasses` | rts/Sim/MoveTypes/MoveDefHandler.cpp:476-485 | the row-major scan passes exactly when every square of the rectangle has a positive modifier, and its minimum is at most all of them |
| `RawSearch.ScanRowsStops` | rts/Sim/MoveTypes/MoveDefHandler.cpp:476-485 | a failing scan stops at a non-positive square that only passing squares precede in row-major order |
| `RawSearch.ScanRowAttains` | rts/Sim/MoveTypes/MoveDefHandler.cpp:478-483 | the minimum a row scan reports is the starting minimum or the modifier of a square it reached, one that only passing squares precede |
| `RawSearch.ScanRowsAttains` | rts/Sim/MoveTypes/MoveDefHandler.cpp:476-485 | the minimum the row-major scan reports is the starting minimum or the modifier of a square of the rectangle it reached, one that only passing squares precede in row-major order |
| `RawSearch.TestMovePositionForObjects` | rts/Sim/MoveTypes/MoveDefHandler.cpp:502-516 | the position test as a definition (no contract of its own): the footprint rectangle around the square is free of structures |
| `RawSearch.PositionRectIsFootprint` | rts/Sim/MoveTypes/MoveDefHandler.cpp:502-516 | for a built profile, the rectangle `TestMovePositionForObjects` queries is exactly xsize by zsize squares centred on the position |
| `MoveDefRegistry.Profile` | rts/Sim/MoveTypes/MoveDefHandler.cpp:131-132 | the profile loaded from the k-th table gets k as its path type |
| `MoveDefRegistry.MoveDefHandler.constructor` | rts/Sim/MoveTypes/MoveDefHandler.cpp:165-178 | a fresh handler holds the default profile in every slot, an empty name map, zero counters and no checksums |
| `MoveDefRegistry.MoveDefHandler.Init` | rts/Sim/MoveTypes/MoveDefHandler.cpp:104-150 | an invalid root table fails with "[MoveDefHandler] error loading MoveDef entries" and an over-long one with "[MoveDefHandler] too many MoveDef entries", both changing nothing; otherwise the tables up to the first gap are loaded into leading slots in order, and the rest of the array is untouched; the name map, largest sizes and checksums cover exactly the loaded profiles |
| `MoveDefRegistry.MoveDefHandler.LoadTables` | rts/Sim/MoveTypes/MoveDefHandler.cpp:122-140 | the loop loads one table per slot up to the first invalid one, and keeps every derived field equal to its fold over the loaded profiles |
| `MoveDefRegistry.MoveDefHandler.LoadNext` | rts/Sim/MoveTypes/MoveDefHandler.cpp:126-139 | a round either finds no table under the next index, which happens only once every table is loaded, or loads exactly one more profile, keeping the loaded profiles those of the first tables |
| `MoveDefRegistry.MoveDefHandler.Register` | rts/Sim/MoveTypes/MoveDefHandler.cpp:131-139 | loading one profile extends every fold by that profile |
| `MoveDefRegistry.MoveDefHandler.StoreProfile` | rts/Sim/MoveTypes/MoveDefHandler.cpp:131-132 | the next slot gets the profile, and its name's hash maps to its id |
| `MoveDefRegistry.MoveDefHandler.RecordSizes` | rts/Sim/MoveTypes/MoveDefHandler.cpp:134-139 | the largest sizes grow to cover the profile and its checksum is appended |
| `MoveDefRegistry.MoveDefHandler.GetMoveDefByName` | rts/Sim/MoveTypes/MoveDefHandler.cpp:153-161 | no profile exactly when the name's hash is unmapped; otherwise the profile in the slot it maps to, which is inside the array |
| `MoveDefRegistry.NameMapStep` | rts/Sim/MoveTypes/MoveDefHandler.cpp:132 | each load maps the new profile's name hash to its id, overriding an earlier profile with the same hash |
| `MoveDefRegistry.LoadStep` | rts/Sim/MoveTypes/MoveDefHandler.cpp:134-139 | each load raises the largest sizes by the new sides and appends the new checksum |
| `MoveDefRegistry.ProfilesStep` | rts/Sim/MoveTypes/MoveDefHandler.cpp:125-132 | loading the next table's profile keeps slot k as the profile of table k |
| `MoveDefRegistry.TablesFromShape` | rts/Sim/MoveTypes/MoveDefHandler.cpp:125-129 | the loaded tables are the valid entries from index i + 1 on, up to the first invalid entry or the end |
| `MoveDefRegistry.TablesShape` | rts/Sim/MoveTypes/MoveDefHandler.cpp:125-132 | `Init` loads at most as many tables as there are entries, each under its own Lua index with its id as path type, and stops at the first index with no table |
| `MoveDefRegistry.NextTable` | rts/Sim/MoveTypes/MoveDefHandler.cpp:126-129 | the table under index id + 1 is the next one loaded, and there is none after the last |
| `MoveDefRegistry.NameMapLookup` | rts/Sim/MoveTypes/MoveDefHandler.cpp:122-132 | a hash is mapped exactly when some loaded profile's name has it, and it maps to the last such profile |
| `MoveDefRegistry.LargestSizeBounds` | rts/Sim/MoveTypes/MoveDefHandler.cpp:134-135 | `largestSize` is at least its start and every loaded side, and is the start or one of those sides |
| `MoveDefRegistry.LargestSizeHBounds` | rts/Sim/MoveTypes/MoveDefHandler.cpp:136-137 | `largestSizeH` is at least its start and every loaded half side |
| `MoveDefRegistry.CheckSumsShape` | rts/Sim/MoveTypes/MoveDefHandler.cpp:139 | one checksum per loaded profile, in load order, each over that profile's bytes |
| `FontGlyphs.KerningHash` | rts/Rendering/Fonts/CFontTexture.cpp:294-300 | an ASCII pair hashes below 16384, a pair with a non-ASCII left character at or above 2^39, and every hash fits 64 bits |
| `FontGlyphs.KerningHashAsciiInjective` | rts/Rendering/Fonts/CFontTexture.cpp:296-297 | two ASCII pairs hash alike exactly when they are equal |
| `FontGlyphs.KerningHashWideInjective` | rts/Rendering/Fonts/CFontTexture.cpp:299 | two pairs that are not both ASCII hash alike exactly when they are equal |
| `FontGlyphs.KerningHashCollisions` | rts/Rendering/Fonts/CFontTexture.cpp:294-300 | the only collisions are between an ASCII pair (l, r) and the pair (0, 128l + r) |
| `FontGlyphs.KerningHashCollisionExample` | rts/Rendering/Fonts/CFontTexture.cpp:294-300 | the pairs (1, 'H') and (0, 200) collide |
| `FontGlyphs.RenderedGlyph` | rts/Rendering/Fonts/CFontTexture.cpp:879-904 | a rendered glyph carries its character, face and index; a glyph with positive width never has a zero advance; the advance is the scaled slot advance or the width |
| `FontGlyphs.RenderedGlyphRelabel` | rts/Rendering/Fonts/CFontTexture.cpp:869-876 | copying a glyph of the same face and index and changing its letter gives what rendering would have given |
| `FontGlyphs.LowerBound` | rts/Rendering/Fonts/CFontTexture.cpp:752 | the lower bound splits a sorted sequence into elements below the character and elements not below it |
| `FontGlyphs.NonPrintableIff` | rts/Rendering/Fonts/CFontTexture.cpp:752-753 | the lower-bound test finds a character exactly when it is among the non-printable ranges |
| `FontGlyphs.SortUnique` | rts/Rendering/Fonts/CFontTexture.cpp:763 | the result is strictly ascending and has exactly the input's characters |
| `FontGlyphs.SwapRemove` | rts/Rendering/Fonts/CFontTexture.cpp:791-792 | one element shorter; the prefix before i is kept, the last element moves to i, and the elements after i stay |
| `FontGlyphs.SwapRemoveElements` | rts/Rendering/Fonts/CFontTexture.cpp:781-792 | on a worklist without repeats, swap-removal drops exactly the removed character and keeps the list free of repeats |
| `FontGlyphs.OrMerge` | rts/Rendering/Fonts/CFontTexture.cpp:1084-1092 | each of the first `size` atlas words becomes its old value ORed with the shadow's word, and later words are unchanged |
| `FontGlyphs.FontTexture.constructor` | rts/Rendering/Fonts/CFontTexture.cpp:537-601 | a new font has no glyphs, failure counts, dynamic kerning entries or queued bitmaps and no pending update or upload; `CreateTexture(32, 32)` gives the texture, its wanted size, the atlas bitmap and a freshly allocated shadow bitmap all 32 by 32 |
| `FontGlyphs.FontTexture.GetGlyph` | rts/Rendering/Fonts/CFontTexture.cpp:679-687 | the stored glyph of a loaded character, otherwise the dummy glyph |
| `FontGlyphs.FontTexture.GetGlyphRendered` | rts/Rendering/Fonts/CFontTexture.cpp:679-687 | a stored glyph carries its own character and is the rendering of its recorded face and index |
| `FontGlyphs.FontTexture.GetKerning` | rts/Rendering/Fonts/CFontTexture.cpp:690-717 | a cached answer is returned unchanged and changes nothing; a miss returns the left advance across faces, or that plus the scaled face kerning within a face, and caches it under the pair's hash; afterwards the pair answers the same from the cache |
| `FontGlyphs.FontTexture.CachedKerning` | rts/Rendering/Fonts/CFontTexture.cpp:693-705 | the answer from the caches as a definition (no contract of its own): the left advance without kerning, the precached entry for a hash inside the table, the dynamic entry, or none |
| `FontGlyphs.FontTexture.FreshKerning` | rts/Rendering/Fonts/CFontTexture.cpp:707-713 | the kerning of a cache miss as a definition (no contract of its own): the left advance across faces, plus the scaled face kerning within one |
| `FontGlyphs.FontTexture.LoadGlyph` | rts/Rendering/Fonts/CFontTexture.cpp:862-929 | a loaded character is left alone; otherwise it gets the rendering of the index in the face, and a bitmap is queued only for a fresh rendering whose bitmap is non-empty, grey and unpadded |
| `FontGlyphs.FontTexture.FilterWanted` | rts/Rendering/Fonts/CFontTexture.cpp:748-762 | the characters passed on are exactly the wanted printable ones with attempts left; every wanted non-printable one with attempts left and no glyph gets glyph 0 of the own face, and no other character gains a glyph; existing failure counts are kept, and new ones are the maximum; the atlas queue grows by exactly `FilterQueue` of the wanted characters |
| `FontGlyphs.FontTexture.FilterStep` | rts/Rendering/Fonts/CFontTexture.cpp:749-761 | one character of the filter extends what the filter has done, glyphs, counts and atlas queue, by that character |
| `FontGlyphs.FontTexture.FilterLoad` | rts/Rendering/Fonts/CFontTexture.cpp:753-756 | a non-printable character with attempts left gets glyph 0 of the own face unless it had a glyph, the full failure count unless it had one, and the atlas queue grows as `FilterQueue` says |
| `FontGlyphs.FontTexture.FirstNewIff` | rts/Rendering/Fonts/CFontTexture.cpp:748-756 | the filter renders a first character exactly when it renders any, and that one is at the earliest position it renders |
| `FontGlyphs.FontTexture.FilterQueue` | rts/Rendering/Fonts/CFontTexture.cpp:748-756 | the filter queues (through the `emplace_back` at line 924) at most one bitmap, and only for a wanted non-printable character with attempts left and no glyph before |
| `FontGlyphs.FontTexture.FilterQueueLoads` | rts/Rendering/Fonts/CFontTexture.cpp:862-927 | a character the filter renders with `LoadGlyph(shFace, c, 0)` (line 754) queues its bitmap exactly when no glyph of the own face's index 0 is loaded yet and the bitmap is one that is kept |
| `FontGlyphs.FontTexture.FilterQueueKeeps` | rts/Rendering/Fonts/CFontTexture.cpp:749-759 | a character the filter skips, collects or already has a glyph for queues nothing |
| `FontGlyphs.FontTexture.FaceGlyph` | rts/Rendering/Fonts/CFontTexture.cpp:786-789 | the glyph a face gives a character carries that character, that face and the face's glyph index for it |
| `FontGlyphs.FontTexture.MissingGlyph` | rts/Rendering/Fonts/CFontTexture.cpp:779 | the fallback glyph carries the character, the font's own face and glyph index 0 |
| `FontGlyphs.FontTexture.SearchSnoc` | rts/Rendering/Fonts/CFontTexture.cpp:773-800 | trying one more face changes nothing for a character already served, and otherwise searches that face from the count raised once per face tried |
| `FontGlyphs.FontTexture.SearchMisses` | rts/Rendering/Fonts/CFontTexture.cpp:776-797 | no face serves a character exactly when every face tried lacks it and its count had not reached the maximum at any of them |
| `FontGlyphs.FontTexture.SearchSkips` | rts/Rendering/Fonts/CFontTexture.cpp:776-797 | after faces that lack a character it had attempts left for, the search is decided at the next face, or goes on past it |
| `FontGlyphs.FontTexture.ReplacePass` | rts/Rendering/Fonts/CFontTexture.cpp:776-798 | a pending character stays exactly when it had attempts left and the face has no glyph for it, and then counts one more failure; every other pending character that had no glyph gets glyph 0 of the own face when its attempts were used up and the face's glyph otherwise, and keeps its count; no other character gains a glyph |
| `FontGlyphs.FontTexture.ReplaceStep` | rts/Rendering/Fonts/CFontTexture.cpp:777-797 | one worklist step keeps the pass invariant and shortens the unexamined part of the worklist |
| `FontGlyphs.FontTexture.Serve` | rts/Rendering/Fonts/CFontTexture.cpp:777-793 | a served character gets the glyph the pass gives it and is swap-removed, keeping the pass invariant |
| `FontGlyphs.FontTexture.CountFailure` | rts/Rendering/Fonts/CFontTexture.cpp:794-797 | a character the face lacks counts one more failure and is stepped over, keeping the pass invariant |
| `FontGlyphs.FontTexture.NextFace` | rts/Rendering/Fonts/CFontTexture.cpp:776-799 | a pass with one more face extends the search invariant by that face: left are the characters the search over the longer list serves nowhere |
| `FontGlyphs.FontTexture.TryFaces` | rts/Rendering/Fonts/CFontTexture.cpp:768-800 | the faces tried are the own face and then the replacement faces in turn, all of them when characters are left; a pending character is left exactly when the search over those faces serves it nowhere, and then counts one failure per face tried; every other one that had no glyph has the glyph the search gives |
| `FontGlyphs.FontTexture.LoadLeftovers` | rts/Rendering/Fonts/CFontTexture.cpp:802-806 | every leftover character gets glyph 0 of the font's own face when it has none |
| `FontGlyphs.FontTexture.FilteredNeeds` | rts/Rendering/Fonts/CFontTexture.cpp:763-766 | the filter passes some character on exactly when some wanted character is printable and has attempts left |
| `FontGlyphs.FontTexture.LoadComposed` | rts/Rendering/Fonts/CFontTexture.cpp:748-806 | the filter, the replacement passes and the leftovers together give each wanted character its chosen glyph and count, with the faces tried in order |
| `FontGlyphs.FontTexture.LoadedComposed` | rts/Rendering/Fonts/CFontTexture.cpp:748-806 | the glyph half of the composition: loaded glyphs stay, only wanted characters gain glyphs, exhausted ones gain none, and every other one gains its chosen glyph |
| `FontGlyphs.FontTexture.CountedComposed` | rts/Rendering/Fonts/CFontTexture.cpp:748-806 | the count half of the composition; a wanted printable character no face served is among those left over |
| `FontGlyphs.FontTexture.LoadFromFaces` | rts/Rendering/Fonts/CFontTexture.cpp:733-806 | the glyph part of `LoadWantedGlyphs` leaves each wanted character its chosen glyph and count, and reports going to the faces exactly when some wanted character is printable with attempts left; when it does not, the atlas queue has grown by exactly what the filter queued |
| `FontGlyphs.FontTexture.ReadBackAtlas` | rts/Rendering/Fonts/CFontTexture.cpp:809-853 | the wanted texture size, the atlas bitmap and the shadow bitmap take the allocator's size, and the queued bitmaps are taken; a bitmap already of that size is kept |
| `FontGlyphs.FontTexture.ResizeAtlas` | rts/Rendering/Fonts/CFontTexture.cpp:816-817 | the atlas bitmap takes the size, and is replaced only when its size differs |
| `FontGlyphs.FontTexture.ResizeShadow` | rts/Rendering/Fonts/CFontTexture.cpp:819-823 | the shadow takes the size; it is allocated when empty and replaced when its size differs, and kept otherwise |
| `FontGlyphs.FontTexture.LoadWantedGlyphs` | rts/Rendering/Fonts/CFontTexture.cpp:730-858 | every wanted character that had attempts left and no glyph gets one: glyph 0 of the own face when non-printable, else the glyph of the first face tried that has it, or glyph 0 of the own face when its attempts ran out first or no face has it; the faces tried are the own face, then the replacement faces in turn, all of them when some character is served by none; loaded glyphs stay, no count drops and an unserved character counts one failure per face; an update is scheduled and the bitmaps take the allocator's size exactly when some wanted character is printable with attempts left; otherwise it returns after the filter (765-766), so the atlas is untouched and the queue holds only what the filter's non-printable renders added |
| `FontGlyphs.FontTexture.LoadWantedGlyphsRange` | rts/Rendering/Fonts/CFontTexture.cpp:719-728 | loads the characters of [begin, end) in order exactly as `LoadWantedGlyphs` does, with the same glyph, count, update, atlas and queue guarantees |
| `FontGlyphs.FontTexture.CharRange` | rts/Rendering/Fonts/CFontTexture.cpp:723-725 | the range holds end - begin characters when begin < end and none otherwise, the k-th being begin + k |
| `FontGlyphs.FontTexture.GlyphAtlasTextureNeedsUpdate` | rts/Rendering/Fonts/CFontTexture.cpp:1041-1048 | the update flag as a definition (no contract of its own): the update counter has moved on from the last update |
| `FontGlyphs.FontTexture.GlyphAtlasTextureNeedsUpload` | rts/Rendering/Fonts/CFontTexture.cpp:1050-1056 | the upload flag as a definition (no contract of its own): an upload was requested |
| `FontGlyphs.FontTexture.UpdateGlyphAtlasTexture` | rts/Rendering/Fonts/CFontTexture.cpp:1059-1107 | with no update due nothing changes; otherwise the update counter catches up and the texture takes its wanted size; with matching sizes the shadow is ORed into the atlas and dropped, and an upload is requested; afterwards no update is due |
| `FontGlyphs.FontTexture.MergeShadow` | rts/Rendering/Fonts/CFontTexture.cpp:1072-1104 | every atlas word is ORed with its shadow word, the shadow becomes empty, and an upload is requested |
| `FontGlyphs.FontTexture.UploadGlyphAtlasTextureImpl` | rts/Rendering/Fonts/CFontTexture.cpp:1114-1131 | after an upload none is due |

## Left out

- Floating point: float values are modelled as `real`, and rounding is not modelled.
- `DegreesToMaxSlope`: `1 - cos` is a parameter of the `Engine` record; the model states only that it maps [0, 90] degrees into [0, 1].
- Header constants are fields of the `Engine` record: `GAME_SPEED`, `SPRING_FOOTPRINT_SCALE`, the default water depths and the in-class defaults. Their headers are not part of this model.
- The block constants are taken as BLOCK_NONE = 0 and BLOCK_STRUCTURE = 8. Their header is not part of this model.
- `Init`: the CRC digest is not modelled. The model keeps the sequence of profile checksums fed to it, but not the terrain-type speeds, the water-damage values or `CRC` itself.
- `Init`: `CMoveMath::noHoverWaterMove` and `waterDamageCost` are not modelled; both come from the map's water damage.
- `MoveDefRegistry.MoveDefHandler.Init` requires a handler that has loaded nothing yet (`mdCounter == 0`), as the engine calls it once per game.
- `hashString` is a parameter of the handler, and so is the byte layout of a profile from `speedModClass` through `flowMapping` that `CalcCheckSum` reads. The struct layout and padding are outside what Dafny can express.
- `DoRawSearch` and `TestMoveSquareRange` take the start and end blocks, or the range, already in squares. The float-to-square conversion, the cross-section shift and the move-direction normalisation are left out, because they are float arithmetic.
- The map queries are parameters of the `World` record: `GetPosSpeedMod`, the max-height map, `RangeIsBlockedMt`, `RangeIsBlocked` and `RangeIsBlockedTempNum`. So is `GetMtTempNum`, as the sequence of numbers its successive calls return.
- `DoRawSearch`: the test lambdas capture their state by reference. The model passes that state through the walk explicitly.
- `DoRawSearch`: the null checks on the output pointers are not modelled. The method always returns both values.
- `DoRawSearch`: the statement at line 423 compares values and stores nothing. It is modelled as written, so the remembered underwater state never changes.
- `DoRawSearch`: line 429 clears the collidable state bit, not the physical one. It is modelled as written, so the physical in-water bit, once set, stays set.
- `CFontTexture`: FreeType and fontconfig are parameters of the `FontTexture` class: `FT_Load_Glyph` with the glyph slot read, `FT_Get_Char_Index`, `FT_Get_Kerning` and `FT_HAS_KERNING`. The replacement faces `GetFontForCharacters` returns are an input sequence.
- `RawSearch.ObjectTest`: the submersible height at line 414 indexes `GetMaxHeightMapSynced()[z * mapDims.mapx + x]` with no bounds check, so an off-map square in the source reads another row's height or outside the array. The model asks `maxHeight(x, z)`, a total function of the two coordinates, so it does not capture that aliasing or the out-of-bounds read.
- `FontGlyphs.FontTexture.constructor`: when the face fails to load, the source returns early (lines 565-574), before `CreateTexture(32, 32)` at line 601, and the texture and bitmap sizes stay 0. The model always has a face and always builds the 32 by 32 atlas.
- `FontGlyphs.FontTexture.constructor`: it does not load the printable ASCII glyphs or compute the ASCII kerning table. `kerningPrecached`, the normalisation scale and the descender are constructor parameters instead.
- `LoadWantedGlyphs`: the atlas allocator is a parameter. Its atlas size after placing the queued bitmaps is the `width` and `height` the method takes; whether `Allocate` succeeded, and the warning when it did not, are not modelled.
- `LoadWantedGlyphs`: the model resizes the atlas and shadow bitmaps as the source does, but a resize allocates a fresh bitmap rather than keeping the canvas contents. The copy of each glyph's bitmap into the atlas and the shadow, and the texture coordinates each glyph gets (lines 825-849), are not modelled. The model does clear the queued bitmaps.
- `LoadWantedGlyphs`: the replacement faces are the sequence the successive `GetFontForCharacters` calls return, given up front. The model does not capture these calls' dependence on the characters still left.
- Logging, the lock, the headless build and the `alreadyCheckedFonts` set are not modelled. The model has logging and locking do nothing.
- `UpdateGlyphAtlasTexture`: the shadow blur is not modelled.
- `UploadGlyphAtlasTextureImpl`: the OpenGL calls are not modelled.
- `FontGlyphs.FontTexture.LoadGlyph`: `find_if` over the unordered glyph map returns some matching glyph. The model picks any match, so it does not fix which one when several share face and index.
- `MoveDefs.FootprintSide`: `std::max(1, footprintX) * SPRING_FOOTPRINT_SCALE` is computed on unbounded integers, so a side large enough to overflow a 32-bit `int` is not modelled.
- Profile names are `seq<char>`, not the byte strings of the source, and `ToLower` lowers only ASCII letters, as the C locale's `tolower` does.
- `MoveDefCheckSum.OneByteChanges` covers byte offsets below 65535 only. At larger offsets the term `(offset + 1) << 8` can wrap around 32 bits, and the model does not claim that the sum changes there.
- `MoveDefCheckSum`: the checksum does not detect every change. A change spread over two bytes can cancel out (`TwoByteCollision`), so a change to a field wider than one byte is not guaranteed to change the sum.
- `RawSearch`: the blocking-map query `rangeBlockedMt` is a pure function of the rectangle, the virtual object and the temp number. The per-object temp-number marks that `RangeIsBlockedMt` keeps between calls, to skip objects already seen under the same number, are not modelled.
- Counters are unbounded: `curTextureUpdate`, `mdCounter` and the failure counts do not wrap around.
