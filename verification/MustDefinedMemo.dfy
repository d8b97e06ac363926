/** The analysis with its table: scans and block verdicts share one table, keyed by the object's identity and the entry
    value, and a loop is both a block and a region under one identity. */
module MustDefinedMemo {
  import opened ControlFlow
  import opened MustDefined

  function BlockId(b: Block): nat {
    if b.Loop? then b.body.id else b.id
  }

  /** What an identity stands for. */
  datatype Thing = ABlock(b: Block) | ARegion(rg: Region)

  /** `b` and all in it are the objects their identities stand for, none of them among `avoid`, and no loop holds
      itself. */
  ghost predicate Fits(world: map<nat, Thing>, avoid: set<nat>, b: Block)
    decreases b, 0
  {
    && BlockId(b) !in avoid && BlockId(b) in world && world[BlockId(b)] == ABlock(b)
    && match b
       case Cond(_, branches) => forall i :: 0 <= i < |branches| ==> RegionFits(world, avoid, branches[i].body)
       case Loop(_, body) => BlocksFit(world, avoid + {body.id}, body)
       case _ => true
  }

  ghost predicate RegionFits(world: map<nat, Thing>, avoid: set<nat>, rg: Region)
    decreases rg, 1
  {
    rg.id !in avoid && rg.id in world && world[rg.id] == ARegion(rg) && BlocksFit(world, avoid, rg)
  }

  ghost predicate BlocksFit(world: map<nat, Thing>, avoid: set<nat>, rg: Region)
    decreases rg, 0
  {
    forall i :: 0 <= i < |rg.blocks| ==> Fits(world, avoid, rg.blocks[i])
  }

  type Table = map<(nat, bool), Verdict>

  /** What the table may hold under a key.  While a loop entered undefined is being worked on (`open`), its slot for
      that entry holds the scan of its body; otherwise a block's slot holds the block's verdict. */
  ghost predicate RightEntry(world: map<nat, Thing>, name: Name, open: set<nat>, id: nat, entry: bool, v: Verdict) {
    id in world &&
    match world[id]
    case ARegion(rg) => v == Scan(rg, name, entry)
    case ABlock(b) =>
      if b.Loop? && !entry && id in open then v == Scan(b.body, name, false) else v == BlockExit(b, name, entry)
  }

  ghost predicate TableOk(world: map<nat, Thing>, name: Name, open: set<nat>, cache: Table) {
    forall key :: key in cache ==> RightEntry(world, name, open, key.0, key.1, cache[key])
  }

  /** A loop that does not name the scalar: with a true entry the loop's verdict is the scan of its body, so either
      function may read what the other stored. */
  lemma SharedSlot(b: Block, name: Name)
    requires b.Loop? && !HeaderNames(b.header, name)
    ensures BlockExit(b, name, true) == Scan(b.body, name, true)
  {
    LoopClosedForm(b.body, name, true, Verdict(true, true), ROUNDS);
    ScanTrue(b.body, name);
  }

  /** A body that reads the scalar and then writes it. */
  ghost function ReadThenWrite(s: Name): Region {
    Region(0, [State(1, [Stmt([Node(0, s)], Node(1, "t"), 0)]), State(2, [Stmt([], Node(2, s), 0)])],
           [Edge(0, 1, [])], 0)
  }

  lemma ReadThenWriteScan(s: Name, entry: bool)
    requires s != "t"
    ensures Scan(ReadThenWrite(s), s, entry) == Verdict(entry, true)
  {
    var rg := ReadThenWrite(s);
    var read, write := rg.blocks[0], rg.blocks[1];
    assert BlockExit(read, s, entry) == Verdict(entry, entry) by {
      var copy := Stmt([Node(0, s)], Node(1, "t"), 0);
      assert copy in read.stmts && Node(0, s) in copy.inputs;
    }
    assert forall e: bool :: BlockExit(write, s, e) == Verdict(true, true) by {
      assert Stmt([], Node(2, s), 0) in write.stmts;
    }
    var top := AllTrue(2);
    var out := [entry, true];
    assert Edge(0, 1, []) in rg.edges;
    assert EntryOf(rg, entry, top, 0) == entry && EntryOf(rg, entry, out, 0) == entry;
    assert Sweep(rg, s, entry, top, 0) == Sweep(rg, s, entry, top[0 := entry], 1);
    assert top[0 := entry] == out && out[1 := true] == out;
    assert Sweep(rg, s, entry, out, 1) == Sweep(rg, s, entry, out, 2) == out;
    TopologicalSettles(rg, s, entry, top, ROUNDS);
    assert IsSink(rg, 1) && !IsSink(rg, 0);
    assert BlocksOk(rg, s, entry, out, 2);
    assert BlocksOk(rg, s, entry, out, 1);
    assert BlocksOk(rg, s, entry, out, 0) == entry;
  }

  /** With a false entry neither may: the two verdicts under the one key differ. */
  lemma FalseSlotsDiffer(h: Header, s: Name)
    requires s != "t" && !HeaderNames(h, s)
    ensures BlockExit(Loop(h, ReadThenWrite(s)), s, false) == Verdict(true, true)
    ensures Scan(ReadThenWrite(s), s, false) == Verdict(false, true)
  {
    ReadThenWriteScan(s, false);
    ReadThenWriteScan(s, true);
    LoopClosedForm(ReadThenWrite(s), s, false, Verdict(true, false), ROUNDS);
  }

  class Analysis {
    const name: Name
    var cache: Table

    constructor (name: Name)
      ensures this.name == name && cache == map[]
    {
      this.name := name;
      cache := map[];
    }

    /** `_block_exit`. */
    method CachedBlockExit(b: Block, entry: bool, ghost world: map<nat, Thing>, ghost open: set<nat>,
                           ghost avoid: set<nat>)
      returns (v: Verdict)
      requires Fits(world, avoid, b) && open <= avoid && TableOk(world, name, open, cache)
      modifies this
      ensures v == BlockExit(b, name, entry) && TableOk(world, name, open, cache)
      decreases b, 5
    {
      var key := (BlockId(b), entry);
      if key in cache {
        v := cache[key];
        assert RightEntry(world, name, open, key.0, key.1, v);
        return;
      }
      if b.Loop? && !HeaderNames(b.header, name) {
        v := LoopExit(b, entry, world, open, avoid);
      } else {
        v := BlockExitUncached(b, entry, world, open, avoid);
      }
      cache := cache[key := v];
    }

    /** `_block_exit_uncached`, on anything but a loop to be scanned. */
    method BlockExitUncached(b: Block, entry: bool, ghost world: map<nat, Thing>, ghost open: set<nat>,
                             ghost avoid: set<nat>)
      returns (v: Verdict)
      requires Fits(world, avoid, b) && open <= avoid && TableOk(world, name, open, cache)
      requires b.Loop? ==> HeaderNames(b.header, name)
      modifies this
      ensures v == BlockExit(b, name, entry) && TableOk(world, name, open, cache)
      decreases b, 4
    {
      match b
      case State(_, stmts) => v := Verdict(!UncoveredRead(stmts, name) || entry, entry || StateWrites(stmts, name));
      case Jump(_) => v := Verdict(true, entry);
      case Loop(_, _) => v := Verdict(false, entry);
      case Cond(_, branches) =>
        var ok, exits := true, true;
        for i := 0 to |branches|
          invariant TableOk(world, name, open, cache)
          invariant var all, rest := Branches(b, name, entry, 0), Branches(b, name, entry, i);
                    all == Verdict(ok && rest.ok, exits && rest.exit)
        {
          var body := branches[i].body;
          assert RegionFits(world, avoid, body);
          var r := CachedScan(body, entry, world, open, avoid);
          ok, exits := ok && r.ok, exits && r.exit;
        }
        v := Verdict(ok, if HasElse(branches) then exits else entry && exits);
    }

    /** The loop case of `_block_exit_uncached`. */
    method LoopExit(b: Block, entry: bool, ghost world: map<nat, Thing>, ghost open: set<nat>, ghost avoid: set<nat>)
      returns (v: Verdict)
      requires Fits(world, avoid, b) && open <= avoid && TableOk(world, name, open, cache)
      requires b.Loop? && !HeaderNames(b.header, name) && (b.body.id, entry) !in cache
      modifies this
      ensures v == BlockExit(b, name, entry) && TableOk(world, name, open, cache[(b.body.id, entry) := v])
      decreases b, 4
    {
      ghost var open' := if entry then open else open + {b.body.id};
      ghost var target := BlockExit(b, name, entry);
      var seen, k := entry, 0;
      v := Verdict(true, entry);
      LoopClosedForm(b.body, name, entry, v, ROUNDS);
      while k < ROUNDS
        invariant 0 <= k <= ROUNDS && (!seen ==> !entry)
        invariant TableOk(world, name, open', cache)
        invariant LoopRounds(b.body, name, entry, seen, v, ROUNDS - k) == target
      {
        var r := CachedLoopScan(b, seen, world, open', avoid);
        var next := entry || r.exit;
        v := Verdict(r.ok, next);
        if next == seen {
          return;
        }
        seen, k := next, k + 1;
      }
    }

    /** `_scan` of a loop's body, under the loop's own identity. */
    method CachedLoopScan(b: Block, entry: bool, ghost world: map<nat, Thing>, ghost open: set<nat>,
                          ghost avoid: set<nat>)
      returns (v: Verdict)
      requires b.Loop? && !HeaderNames(b.header, name) && b.body.id in world && world[b.body.id] == ABlock(b)
      requires BlocksFit(world, avoid + {b.body.id}, b.body)
      requires open <= avoid + {b.body.id} && (!entry ==> b.body.id in open)
      requires TableOk(world, name, open, cache)
      modifies this
      ensures v == Scan(b.body, name, entry) && TableOk(world, name, open, cache)
      decreases b, 3
    {
      SharedSlot(b, name);
      var key := (b.body.id, entry);
      if key in cache {
        v := cache[key];
        assert RightEntry(world, name, open, key.0, key.1, v);
        return;
      }
      v := ScanUncached(b.body, entry, world, open, avoid + {b.body.id});
      cache := cache[key := v];
    }

    /** `_scan` of a branch. */
    method CachedScan(rg: Region, entry: bool, ghost world: map<nat, Thing>, ghost open: set<nat>,
                      ghost avoid: set<nat>)
      returns (v: Verdict)
      requires RegionFits(world, avoid, rg) && open <= avoid && TableOk(world, name, open, cache)
      modifies this
      ensures v == Scan(rg, name, entry) && TableOk(world, name, open, cache)
      decreases rg, 2
    {
      var key := (rg.id, entry);
      if key in cache {
        v := cache[key];
        assert RightEntry(world, name, open, key.0, key.1, v);
        return;
      }
      v := ScanUncached(rg, entry, world, open, avoid);
      cache := cache[key := v];
    }

    /** `_scan_uncached`. */
    method ScanUncached(rg: Region, entry: bool, ghost world: map<nat, Thing>, ghost open: set<nat>,
                        ghost avoid: set<nat>)
      returns (v: Verdict)
      requires BlocksFit(world, avoid, rg) && open <= avoid && TableOk(world, name, open, cache)
      modifies this
      ensures v == Scan(rg, name, entry) && TableOk(world, name, open, cache)
      decreases rg, 1
    {
      if rg.blocks == [] {
        return Verdict(true, entry);
      }
      var out := AllTrue(|rg.blocks|);
      var k, changed := 0, true;
      ghost var target := Rounds(rg, name, entry, out, ROUNDS);
      while k < ROUNDS && changed
        invariant 0 <= k <= ROUNDS && |out| == |rg.blocks| && TableOk(world, name, open, cache)
        invariant target == if changed then Rounds(rg, name, entry, out, ROUNDS - k) else out
        decreases ROUNDS - k
      {
        var swept := SweepOnce(rg, entry, out, world, open, avoid);
        changed := swept != out;
        out, k := swept, k + 1;
      }
      var ok := true;
      for i := 0 to |rg.blocks|
        invariant TableOk(world, name, open, cache)
        invariant BlocksOk(rg, name, entry, out, 0) == (ok && BlocksOk(rg, name, entry, out, i))
      {
        assert Fits(world, avoid, rg.blocks[i]);
        var r := CachedBlockExit(rg.blocks[i], EntryOf(rg, entry, out, i), world, open, avoid);
        ok := ok && r.ok;
      }
      v := Verdict(ok && EdgesOk(rg, name, out), ExitOf(rg, entry, out));
    }

    /** One round of `_scan_uncached`. */
    method SweepOnce(rg: Region, entry: bool, out: seq<bool>, ghost world: map<nat, Thing>, ghost open: set<nat>,
                     ghost avoid: set<nat>)
      returns (swept: seq<bool>)
      requires BlocksFit(world, avoid, rg) && open <= avoid && TableOk(world, name, open, cache)
      requires |out| == |rg.blocks|
      modifies this
      ensures swept == Sweep(rg, name, entry, out, 0) && TableOk(world, name, open, cache)
      decreases rg, 0
    {
      swept := out;
      for i := 0 to |rg.blocks|
        invariant |swept| == |rg.blocks| && TableOk(world, name, open, cache)
        invariant Sweep(rg, name, entry, swept, i) == Sweep(rg, name, entry, out, 0)
      {
        assert Fits(world, avoid, rg.blocks[i]);
        var r := CachedBlockExit(rg.blocks[i], EntryOf(rg, entry, swept, i), world, open, avoid);
        swept := swept[i := r.exit];
      }
    }

    /** The safety check of `fission_loop_local_scalars`: one table for all the loops that use the scalar. */
    method AllSafe(loops: seq<Block>, ghost world: map<nat, Thing>)
      returns (safe: bool)
      requires cache == map[]
      requires forall l :: l in loops ==> l.Loop? && l.body.id in world && world[l.body.id] == ABlock(l)
      requires forall l :: l in loops ==> BlocksFit(world, set x | x in loops :: BlockId(x), l.body)
      modifies this
      ensures safe <==> forall l :: l in loops ==> !HeaderNames(l.header, name) && Scan(l.body, name, false).ok
    {
      ghost var open := set x | x in loops :: BlockId(x);
      for i := 0 to |loops|
        invariant TableOk(world, name, open, cache)
        invariant forall j :: 0 <= j < i ==> !HeaderNames(loops[j].header, name) && Scan(loops[j].body, name, false).ok
      {
        var loop := loops[i];
        assert loop in loops;
        if HeaderNames(loop.header, name) {
          return false;
        }
        assert open + {loop.body.id} == open;
        var r := CachedLoopScan(loop, false, world, open, open);
        if !r.ok {
          return false;
        }
      }
      return true;
    }
  }
}
