/**
 * The movement-profile registry (`MoveDefHandler`): a fixed-capacity array
 * of profiles loaded from the `MoveDefs` table, a map from name hashes to
 * profile ids, the largest footprint sizes, and the profile checksums that
 * go into the registry's digest.
 *
 * `hashString` and the byte layout a profile is checksummed over are
 * parameters of the handler; the CRC digest itself is not modelled, only the
 * sequence of profile checksums fed to it.
 */
module MoveDefRegistry {
  import opened Wrappers
  import opened MoveDefs
  import MoveDefCheckSum

  /**
   * The `MoveDefs` root table: whether it is valid, and its array part; a
   * slot is None when it holds no valid profile table. Its length is the
   * table's `GetLength()`.
   */
  datatype RootTable = RootTable(valid: bool, entries: seq<Option<MoveDefTable>>)

  /** `rootTable.SubTable(k)`: the profile table under Lua index k, if any. */
  function SubTable(root: RootTable, k: int): Option<MoveDefTable> {
    if 1 <= k <= |root.entries| then root.entries[k - 1] else None
  }

  /** The profile loaded for the table under index id + 1: its fields from the table, and id as its path type. */
  function Profile(e: Engine, t: MoveDefTable, id: nat): (md: MoveDef)
    requires ValidEngine(e)
    ensures md.pathType == id
  {
    MoveDefOf(e, t).(pathType := id)
  }

  /** Derives the profile for one table and gives it its id as path type. */
  method LoadProfile(e: Engine, t: MoveDefTable, id: nat) returns (md: MoveDef)
    requires ValidEngine(e)
    ensures md == Profile(e, t, id)
  {
    md := NewMoveDef(e, t);
    md := md.(pathType := id);
  }

  /** The profile tables from Lua index i + 1 on, up to the first index that holds no valid table. */
  function TablesFrom(root: RootTable, i: nat): (ts: seq<MoveDefTable>)
    ensures i <= |root.entries| ==> i + |ts| <= |root.entries|
    decreases |root.entries| - i
  {
    if i >= |root.entries| then []
    else match root.entries[i]
      case None => []
      case Some(t) => [t] + TablesFrom(root, i + 1)
  }

  /** The tables `Init` loads: those under indices 1, 2, ... up to the first invalid one. */
  function Tables(root: RootTable): seq<MoveDefTable> {
    TablesFrom(root, 0)
  }

  /** The name map after loading `defs` in order: each name's hash maps to the id of the profile loaded with it last. */
  function NameMapOf(hash: string -> int, defs: seq<MoveDef>): map<int, nat> {
    if defs == [] then map[]
    else NameMapOf(hash, defs[..|defs| - 1])[hash(defs[|defs| - 1].name) := |defs| - 1]
  }

  /** `largestSize` after loading `defs`, starting from l. */
  function LargestSizeOf(l: int, defs: seq<MoveDef>): int {
    if defs == [] then l
    else
      var last := defs[|defs| - 1];
      IMax(IMax(LargestSizeOf(l, defs[..|defs| - 1]), last.xsize), last.zsize)
  }

  /** `largestSizeH` after loading `defs`, starting from l. */
  function LargestSizeHOf(l: int, defs: seq<MoveDef>): int {
    if defs == [] then l
    else
      var last := defs[|defs| - 1];
      IMax(IMax(LargestSizeHOf(l, defs[..|defs| - 1]), last.xsizeh), last.zsizeh)
  }

  /** The checksums of `defs`, in order, over their byte layouts. */
  function CheckSumsOf(layout: MoveDef -> seq<MoveDefCheckSum.Byte>, defs: seq<MoveDef>): seq<MoveDefCheckSum.UInt32> {
    if defs == [] then []
    else CheckSumsOf(layout, defs[..|defs| - 1]) + [MoveDefCheckSum.CheckSum(layout(defs[|defs| - 1]))]
  }

  class MoveDefHandler {
    const engine: Engine
    /** `hashString`. */
    const hash: string -> int
    /** The bytes from `speedModClass` through `flowMapping` of a profile. */
    const layout: MoveDef -> seq<MoveDefCheckSum.Byte>
    /** The fixed-capacity profile array. */
    const moveDefs: array<MoveDef>
    var nameMap: map<int, nat>
    var mdCounter: nat
    var largestSize: int
    var largestSizeH: int
    /** The profile checksums fed to the digest, in order. */
    var checkSums: seq<MoveDefCheckSum.UInt32>

    /** Every id in the name map indexes the profile array. */
    ghost predicate Valid()
      reads this`mdCounter, this`nameMap
    {
      && ValidEngine(engine)
      && mdCounter <= moveDefs.Length
      && forall k :: k in nameMap ==> nameMap[k] < moveDefs.Length
    }

    /** An empty handler with room for `capacity` profiles, each the fixed default. */
    constructor (engine: Engine, hash: string -> int, layout: MoveDef -> seq<MoveDefCheckSum.Byte>, capacity: nat)
      requires ValidEngine(engine)
      ensures Valid()
      ensures this.engine == engine && this.hash == hash && this.layout == layout
      ensures fresh(moveDefs) && moveDefs.Length == capacity
      ensures forall i :: 0 <= i < capacity ==> moveDefs[i] == DefaultMoveDef(engine)
      ensures nameMap == map[] && mdCounter == 0 && largestSize == 0 && largestSizeH == 0 && checkSums == []
    {
      this.engine := engine;
      this.hash := hash;
      this.layout := layout;
      moveDefs := new MoveDef[capacity](_ => DefaultMoveDef(engine));
      nameMap := map[];
      mdCounter := 0;
      largestSize := 0;
      largestSizeH := 0;
      checkSums := [];
    }

    /**
     * `MoveDefHandler::Init`: fails on an invalid root table or one longer
     * than the capacity, changing nothing; otherwise loads the tables under
     * indices 1, 2, ... up to the first invalid one into consecutive slots,
     * with consecutive ids as path types, and records names, sizes and
     * checksums. Returns the number of profiles loaded.
     */
    method Init(root: RootTable) returns (r: Result<nat>)
      requires Valid() && mdCounter == 0
      modifies this, moveDefs
      ensures Valid()
      ensures !root.valid ==> r == Failure("[MoveDefHandler] error loading MoveDef entries")
      ensures root.valid && |root.entries| > moveDefs.Length ==> r == Failure("[MoveDefHandler] too many MoveDef entries")
      ensures r.Failure? ==>
        && unchanged(moveDefs) && nameMap == old(nameMap) && mdCounter == old(mdCounter)
        && largestSize == old(largestSize) && largestSizeH == old(largestSizeH) && checkSums == old(checkSums)
      ensures root.valid && |root.entries| <= moveDefs.Length ==>
        var tables := Tables(root);
        && r == Success(|tables|)
        && mdCounter == |tables| <= moveDefs.Length
        && ProfilesOf(engine, tables, moveDefs[..mdCounter])
        && moveDefs[mdCounter..] == old(moveDefs[..])[mdCounter..]
        && nameMap == NameMapOf(hash, moveDefs[..mdCounter])
        && largestSize == LargestSizeOf(old(largestSize), moveDefs[..mdCounter])
        && largestSizeH == LargestSizeHOf(old(largestSizeH), moveDefs[..mdCounter])
        && checkSums == old(checkSums) + CheckSumsOf(layout, moveDefs[..mdCounter])
    {
      if !root.valid {
        return Failure("[MoveDefHandler] error loading MoveDef entries");
      }
      if |root.entries| > moveDefs.Length {
        return Failure("[MoveDefHandler] too many MoveDef entries");
      }
      r := LoadTables(root);
    }

    /** The loading loop of `Init`, once the root table has passed its checks. */
    method LoadTables(root: RootTable) returns (r: Result<nat>)
      requires Valid() && mdCounter == 0 && root.valid && |root.entries| <= moveDefs.Length
      modifies this, moveDefs
      ensures Valid()
      ensures
        var tables := Tables(root);
        && r == Success(|tables|)
        && mdCounter == |tables| <= moveDefs.Length
        && ProfilesOf(engine, tables, moveDefs[..mdCounter])
        && moveDefs[mdCounter..] == old(moveDefs[..])[mdCounter..]
        && nameMap == NameMapOf(hash, moveDefs[..mdCounter])
        && largestSize == LargestSizeOf(old(largestSize), moveDefs[..mdCounter])
        && largestSizeH == LargestSizeHOf(old(largestSizeH), moveDefs[..mdCounter])
        && checkSums == old(checkSums) + CheckSumsOf(layout, moveDefs[..mdCounter])
    {
      ghost var tables := Tables(root);
      ghost var init := moveDefs[..];
      ghost var largest0, largestH0, sums0 := largestSize, largestSizeH, checkSums;
      nameMap := map[];
      ghost var loaded: seq<MoveDef> := [];
      assert loaded + init[0..] == init;
      var moveDefID: nat := 0;
      while true
        invariant moveDefID == |loaded|
        invariant Loading(tables, loaded, init, largest0, largestH0, sums0)
        decreases |tables| - moveDefID
      {
        var done;
        done, loaded := LoadNext(root, moveDefID, tables, loaded, init, largest0, largestH0, sums0);
        if done {
          break;
        }
        moveDefID := moveDefID + 1;
      }
      assert moveDefs[..mdCounter] == loaded;
      assert moveDefs[mdCounter..] == init[mdCounter..];
      return Success(moveDefID);
    }

    /** Where the loading loop stands: `loaded` are the profiles of the first tables, recorded over `init`. */
    ghost predicate Loading(tables: seq<MoveDefTable>, loaded: seq<MoveDef>, init: seq<MoveDef>,
                            l0: int, lH0: int, s0: seq<MoveDefCheckSum.UInt32>)
      reads this, moveDefs
    {
      && Valid() && |loaded| <= |tables| <= moveDefs.Length
      && Records(loaded, init, l0, lH0, s0)
      && ProfilesOf(engine, tables, loaded)
    }

    /**
     * One round of `Init`'s loop: fetch the table under index id + 1 and stop
     * when there is none; otherwise load its profile with id as path type and
     * record it.
     */
    method LoadNext(root: RootTable, moveDefID: nat, ghost tables: seq<MoveDefTable>, ghost loaded: seq<MoveDef>,
                    ghost init: seq<MoveDef>, ghost l0: int, ghost lH0: int, ghost s0: seq<MoveDefCheckSum.UInt32>)
      returns (done: bool, ghost loaded': seq<MoveDef>)
      requires tables == Tables(root) && moveDefID == |loaded|
      requires Loading(tables, loaded, init, l0, lH0, s0)
      modifies this, moveDefs
      ensures Loading(tables, loaded', init, l0, lH0, s0)
      ensures done ==> loaded' == loaded && |loaded| == |tables|
      ensures !done ==> |loaded'| == |loaded| + 1
    {
      var moveDefTable := SubTable(root, moveDefID + 1);
      NextTable(root, moveDefID);
      if moveDefTable.None? {
        return true, loaded;
      }
      var md := LoadProfile(engine, moveDefTable.value, moveDefID);
      Register(md, loaded, init, l0, lH0, s0);
      ProfilesStep(engine, tables, loaded, md);
      return false, loaded + [md];
    }

    /**
     * What loading the profiles `loaded` in order has recorded: they fill the
     * first slots of the array, whose other slots are as they were in `init`,
     * and the name map, the largest sizes and the checksums are those of
     * `loaded`, from the initial values l0, lH0 and s0.
     */
    ghost predicate Records(loaded: seq<MoveDef>, init: seq<MoveDef>, l0: int, lH0: int, s0: seq<MoveDefCheckSum.UInt32>)
      reads this, moveDefs
    {
      Slots(loaded, init) && Sizes(loaded, l0, lH0, s0)
    }

    /** The profile array and the name map after loading `loaded` over the initial contents `init`. */
    ghost predicate Slots(loaded: seq<MoveDef>, init: seq<MoveDef>)
      reads this`mdCounter, this`nameMap, moveDefs
    {
      && mdCounter == |loaded| <= |init| == moveDefs.Length
      && moveDefs[..] == loaded + init[|loaded|..]
      && nameMap == NameMapOf(hash, loaded)
      && (forall k :: k in nameMap ==> nameMap[k] < mdCounter)
    }

    /** The largest sizes and the checksums after loading `loaded`. */
    ghost predicate Sizes(loaded: seq<MoveDef>, l0: int, lH0: int, s0: seq<MoveDefCheckSum.UInt32>)
      reads this`largestSize, this`largestSizeH, this`checkSums
    {
      && largestSize == LargestSizeOf(l0, loaded)
      && largestSizeH == LargestSizeHOf(lH0, loaded)
      && checkSums == s0 + CheckSumsOf(layout, loaded)
    }

    /**
     * The body of `Init`'s loop for one profile: store it in the next slot,
     * map its name's hash to its id, grow the largest sizes to cover its
     * footprint and append its checksum.
     */
    method Register(md: MoveDef, ghost loaded: seq<MoveDef>, ghost init: seq<MoveDef>,
                    ghost l0: int, ghost lH0: int, ghost s0: seq<MoveDefCheckSum.UInt32>)
      requires Valid() && Records(loaded, init, l0, lH0, s0) && mdCounter < moveDefs.Length
      modifies this, moveDefs
      ensures Valid() && Records(loaded + [md], init, l0, lH0, s0)
    {
      RecordSizes(md, loaded, l0, lH0, s0);
      StoreProfile(md, loaded, init);
    }

    /** Stores the profile in the next slot and maps its name's hash to its id. */
    method StoreProfile(md: MoveDef, ghost loaded: seq<MoveDef>, ghost init: seq<MoveDef>)
      requires Slots(loaded, init) && mdCounter < moveDefs.Length
      modifies this`mdCounter, this`nameMap, moveDefs
      ensures Slots(loaded + [md], init)
    {
      NameMapStep(hash, loaded, md);
      SpliceStep(loaded, init, md);
      moveDefs[mdCounter] := md;
      nameMap := nameMap[hash(md.name) := mdCounter];
      mdCounter := mdCounter + 1;
    }

    /** Grows the largest sizes to cover the profile's footprint and appends its checksum. */
    method RecordSizes(md: MoveDef, ghost loaded: seq<MoveDef>, ghost l0: int, ghost lH0: int, ghost s0: seq<MoveDefCheckSum.UInt32>)
      requires Sizes(loaded, l0, lH0, s0)
      modifies this`largestSize, this`largestSizeH, this`checkSums
      ensures Sizes(loaded + [md], l0, lH0, s0)
    {
      LoadStep(layout, loaded, md, l0, lH0);
      largestSize := IMax(largestSize, md.xsize);
      largestSize := IMax(largestSize, md.zsize);
      largestSizeH := IMax(largestSizeH, md.xsizeh);
      largestSizeH := IMax(largestSizeH, md.zsizeh);

      var sum := MoveDefCheckSum.CalcCheckSum(layout(md));
      checkSums := checkSums + [sum];
    }

    /**
     * `MoveDefHandler::GetMoveDefByName`: the profile whose id the name's
     * hash maps to, or None when the hash is not in the map.
     */
    method GetMoveDefByName(name: string) returns (r: Option<MoveDef>)
      requires Valid()
      ensures r.None? <==> hash(name) !in nameMap
      ensures r.Some? ==> hash(name) in nameMap && nameMap[hash(name)] < moveDefs.Length
                          && r.value == moveDefs[nameMap[hash(name)]]
    {
      var key := hash(name);
      if key !in nameMap {
        return None;
      }
      return Some(moveDefs[nameMap[key]]);
    }
  }

  // ---------------------------------------------------------------------------
  // What loading produces
  // ---------------------------------------------------------------------------

  /** One loop step of `Init` for the name map: the new profile's name maps to its id. */
  lemma NameMapStep(hash: string -> int, loaded: seq<MoveDef>, md: MoveDef)
    ensures NameMapOf(hash, loaded + [md]) == NameMapOf(hash, loaded)[hash(md.name) := |loaded|]
  {
    assert (loaded + [md])[..|loaded|] == loaded;
  }

  /** One loop step of `Init` for the sizes and checksums: each fold takes the new profile in at the end. */
  lemma LoadStep(layout: MoveDef -> seq<MoveDefCheckSum.Byte>, loaded: seq<MoveDef>, md: MoveDef, largest0: int, largestH0: int)
    ensures var loaded' := loaded + [md];
      && LargestSizeOf(largest0, loaded') == IMax(IMax(LargestSizeOf(largest0, loaded), md.xsize), md.zsize)
      && LargestSizeHOf(largestH0, loaded') == IMax(IMax(LargestSizeHOf(largestH0, loaded), md.xsizeh), md.zsizeh)
      && CheckSumsOf(layout, loaded') == CheckSumsOf(layout, loaded) + [MoveDefCheckSum.CheckSum(layout(md))]
  {
    assert (loaded + [md])[..|loaded|] == loaded;
  }

  /** Slot k of `loaded` holds the profile of table k, with id k. */
  ghost predicate ProfilesOf(e: Engine, tables: seq<MoveDefTable>, loaded: seq<MoveDef>)
    requires ValidEngine(e)
  {
    |loaded| <= |tables| && forall k :: 0 <= k < |loaded| ==> loaded[k] == Profile(e, tables[k], k)
  }

  /** Loading the profile of the next table keeps `ProfilesOf`. */
  lemma ProfilesStep(e: Engine, tables: seq<MoveDefTable>, loaded: seq<MoveDef>, md: MoveDef)
    requires ValidEngine(e) && ProfilesOf(e, tables, loaded) && |loaded| < |tables|
    requires md == Profile(e, tables[|loaded|], |loaded|)
    ensures ProfilesOf(e, tables, loaded + [md])
  {
    var loaded' := loaded + [md];
    forall k | 0 <= k < |loaded'| ensures loaded'[k] == Profile(e, tables[k], k) {
      if k < |loaded| {
        assert loaded'[k] == loaded[k];
      }
    }
  }

  /** Overwriting the first untouched slot extends the loaded prefix by one. */
  lemma SpliceStep(loaded: seq<MoveDef>, init: seq<MoveDef>, md: MoveDef)
    requires |loaded| < |init|
    ensures (loaded + init[|loaded|..])[|loaded| := md] == (loaded + [md]) + init[|loaded| + 1..]
  {
    var a := (loaded + init[|loaded|..])[|loaded| := md];
    var b := (loaded + [md]) + init[|loaded| + 1..];
    assert |a| == |b|;
    forall i | 0 <= i < |a| ensures a[i] == b[i] {
      if i > |loaded| {
        assert a[i] == init[i];
      }
    }
  }

  /**
   * The tables loaded from Lua index i + 1 on are those under i + 1, i + 2,
   * ... up to the first index that holds no valid table, or the end of the
   * root table.
   */
  lemma {:induction false} TablesFromShape(root: RootTable, i: nat)
    requires i <= |root.entries|
    ensures var ts := TablesFrom(root, i);
      && i + |ts| <= |root.entries|
      && (forall j :: 0 <= j < |ts| ==> root.entries[i + j] == Some(ts[j]))
      && (i + |ts| == |root.entries| || root.entries[i + |ts|].None?)
    decreases |root.entries| - i
  {
    if i < |root.entries| && root.entries[i].Some? {
      TablesFromShape(root, i + 1);
      var ts := TablesFrom(root, i);
      forall j | 0 <= j < |ts|
        ensures root.entries[i + j] == Some(ts[j])
      {
        if j > 0 {
          assert ts[j] == TablesFrom(root, i + 1)[j - 1];
        }
      }
    }
  }

  /**
   * `Init` loads without gaps: table k is the one under Lua index k + 1, no
   * more tables are loaded than the root table holds, and the index after
   * the last one loaded holds no valid table. The profile in slot k has path type k.
   */
  lemma TablesShape(e: Engine, root: RootTable)
    requires ValidEngine(e)
    ensures var ts := Tables(root);
      && |ts| <= |root.entries|
      && (forall k :: 0 <= k < |ts| ==> SubTable(root, k + 1) == Some(ts[k]) && Profile(e, ts[k], k).pathType == k)
      && SubTable(root, |ts| + 1).None?
  {
    TablesFromShape(root, 0);
  }

  /** The table `Init` asks for next is the next one in `Tables`, and there is none after the last. */
  lemma NextTable(root: RootTable, id: nat)
    requires id <= |Tables(root)|
    ensures id < |Tables(root)| ==> SubTable(root, id + 1) == Some(Tables(root)[id])
    ensures id == |Tables(root)| ==> SubTable(root, id + 1).None?
  {
    TablesFromShape(root, 0);
  }

  /**
   * The name map holds exactly the hashes of the loaded names, and maps each
   * to the last profile loaded under it.
   */
  lemma {:induction false} NameMapLookup(hash: string -> int, defs: seq<MoveDef>, k: int)
    ensures var m := NameMapOf(hash, defs);
      && (k in m <==> exists i :: 0 <= i < |defs| && hash(defs[i].name) == k)
      && (k in m ==> m[k] < |defs| && hash(defs[m[k]].name) == k
                     && forall j :: m[k] < j < |defs| ==> hash(defs[j].name) != k)
    decreases |defs|
  {
    if defs != [] {
      var init := defs[..|defs| - 1];
      NameMapLookup(hash, init, k);
      if hash(defs[|defs| - 1].name) != k {
        if exists i :: 0 <= i < |defs| && hash(defs[i].name) == k {
          var i :| 0 <= i < |defs| && hash(defs[i].name) == k;
          assert init[i] == defs[i];
        }
      }
    }
  }

  /**
   * `largestSize` ends at least its initial value and at least every loaded
   * profile's xsize and zsize, and it is one of those values.
   */
  lemma {:induction false} LargestSizeBounds(l: int, defs: seq<MoveDef>)
    ensures var m := LargestSizeOf(l, defs);
      && m >= l
      && (forall i :: 0 <= i < |defs| ==> m >= defs[i].xsize && m >= defs[i].zsize)
      && (m == l || exists i :: 0 <= i < |defs| && (m == defs[i].xsize || m == defs[i].zsize))
    decreases |defs|
  {
    if defs != [] {
      var init := defs[..|defs| - 1];
      LargestSizeBounds(l, init);
      var m := LargestSizeOf(l, defs);
      forall i | 0 <= i < |defs| - 1
        ensures m >= defs[i].xsize && m >= defs[i].zsize
      {
        assert init[i] == defs[i];
      }
      if m != l && m != defs[|defs| - 1].xsize && m != defs[|defs| - 1].zsize {
        var i :| 0 <= i < |init| && (m == init[i].xsize || m == init[i].zsize);
        assert init[i] == defs[i];
      }
    }
  }

  /** `largestSizeH` ends at least its initial value and at least every loaded profile's xsizeh and zsizeh. */
  lemma {:induction false} LargestSizeHBounds(l: int, defs: seq<MoveDef>)
    ensures var m := LargestSizeHOf(l, defs);
      && m >= l
      && (forall i :: 0 <= i < |defs| ==> m >= defs[i].xsizeh && m >= defs[i].zsizeh)
    decreases |defs|
  {
    if defs != [] {
      var init := defs[..|defs| - 1];
      LargestSizeHBounds(l, init);
      forall i | 0 <= i < |defs| - 1
        ensures LargestSizeHOf(l, defs) >= defs[i].xsizeh && LargestSizeHOf(l, defs) >= defs[i].zsizeh
      {
        assert init[i] == defs[i];
      }
    }
  }

  /** One checksum per loaded profile, in load order. */
  lemma {:induction false} CheckSumsShape(layout: MoveDef -> seq<MoveDefCheckSum.Byte>, defs: seq<MoveDef>)
    ensures var sums := CheckSumsOf(layout, defs);
      |sums| == |defs| && forall i :: 0 <= i < |defs| ==> sums[i] == MoveDefCheckSum.CheckSum(layout(defs[i]))
    decreases |defs|
  {
    if defs != [] {
      var init := defs[..|defs| - 1];
      CheckSumsShape(layout, init);
      forall i | 0 <= i < |defs| - 1
        ensures CheckSumsOf(layout, defs)[i] == MoveDefCheckSum.CheckSum(layout(defs[i]))
      {
        assert init[i] == defs[i];
      }
    }
  }
}
