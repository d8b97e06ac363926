/** The walk that decides whether a loop's iterations prepare an array before reading it: the elements written on some
    path so far, and for each read whether it is covered by them. */
module WrittenAfter {
  import opened Options

  type Elem = seq<int>

  /** Elements an access names; `None` when its bounds are not constants. */
  type Elems = Option<set<Elem>>

  /** `certain`: not dynamic and not out of a nested SDFG; `wcr`: an accumulation, which reads what it updates.  `site`
      tells the accesses of the program apart. */
  datatype Access = Write(site: nat, elems: Elems, wcr: bool, certain: bool) | Read(site: nat, elems: Elems)

  /** `cond` is the condition's site if it names the array; an else has no condition. */
  datatype Branch = Branch(isElse: bool, cond: Option<nat>, body: Region)

  datatype Block =
    | State(accesses: seq<Access>)
    | Cond(branches: seq<Branch>)
    | Loop(body: Region)
    | Nested(body: Region)
    | Unknown

  /** The blocks of a region in topological order, each with the reads on the edges leaving it. */
  datatype Chain = End | Then(block: Block, onEdge: seq<Access>, rest: Chain)

  datatype Region = Region(unconditional: bool, chain: Chain)

  // ---------------------------------------------------------------- the walk

  /** `_covered`: a read whose element cannot be named needs the whole array written. */
  predicate Covered(whole: Elems, written: set<Elem>, elems: Elems) {
    match elems
    case None => whole.Some? && whole.value <= written
    case Some(es) => es <= written
  }

  /** One access of a state, or of an edge. */
  function AccessAfter(whole: Elems, a: Access, written: set<Elem>): Elems {
    match a
    case Read(_, es) => if Covered(whole, written, es) then Some(written) else None
    case Write(_, es, wcr, certain) =>
      if wcr && !Covered(whole, written, es) then None
      else Some(if certain && es.Some? then written + es.value else written)
  }

  function AccessesAfter(whole: Elems, accs: seq<Access>, written: set<Elem>): Elems {
    if accs == [] then Some(written)
    else
      var w := AccessAfter(whole, accs[0], written);
      if w.None? then None else AccessesAfter(whole, accs[1..], w.value)
  }

  function RegionAfter(whole: Elems, rg: Region, written: set<Elem>): Elems
    decreases rg, 1
  {
    if rg.unconditional then ChainAfter(whole, rg.chain, written) else None
  }

  function ChainAfter(whole: Elems, c: Chain, written: set<Elem>): Elems
    decreases c, 1
  {
    match c
    case End => Some(written)
    case Then(b, onEdge, rest) =>
      var w := BlockAfter(whole, b, written);
      if w.None? then None
      else
        var w' := AccessesAfter(whole, onEdge, w.value);
        if w'.None? then None else ChainAfter(whole, rest, w'.value)
  }

  function BlockAfter(whole: Elems, b: Block, written: set<Elem>): Elems
    decreases b, 2
  {
    match b
    case State(accs) => AccessesAfter(whole, accs, written)
    case Cond(branches) => if TestsCovered(whole, branches, written) then BranchesAfter(whole, b, 0, written, written)
        else None
    case Loop(body) => RegionAfter(whole, body, written)
    case Nested(body) => RegionAfter(whole, body, written)
    case Unknown => None
  }

  /** A branch condition that names the array sees what the writes before the conditional left. */
  predicate TestsCovered(whole: Elems, branches: seq<Branch>, written: set<Elem>) {
    forall br :: br in branches && br.cond.Some? ==> Covered(whole, written, None)
  }

  /** The branches each start from `written`; what any of them writes counts after. */
  function BranchesAfter(whole: Elems, b: Block, i: nat, written: set<Elem>, after: set<Elem>): Elems
    requires b.Cond? && i <= |b.branches|
    decreases b, 1, |b.branches| - i
  {
    if i == |b.branches| then Some(after)
    else
      var w := RegionAfter(whole, b.branches[i].body, written);
      if w.None? then None else BranchesAfter(whole, b, i + 1, written, after + w.value)
  }

  // ---------------------------------------------------------------- the walk as the pass runs it

  /** `_state_covered`. */
  method StateCovered(whole: Elems, accs: seq<Access>, before: set<Elem>) returns (ok: bool, written: set<Elem>)
    ensures (if ok then Some(written) else None) == AccessesAfter(whole, accs, before)
  {
    ok, written := true, before;
    for i := 0 to |accs|
      invariant AccessesAfter(whole, accs, before) == AccessesAfter(whole, accs[i..], written)
    {
      assert accs[i..][0] == accs[i] && accs[i..][1..] == accs[i + 1..];
      match accs[i]
      case Write(_, es, wcr, certain) =>
        if wcr && !Covered(whole, written, es) {
          return false, written;
        }
        if certain && es.Some? {
          written := written + es.value;
        }
      case Read(_, es) =>
        if !Covered(whole, written, es) {
          return false, written;
        }
    }
  }

  /** `_written_after`. */
  method Walk(whole: Elems, rg: Region, before: set<Elem>) returns (r: Elems)
    ensures r == RegionAfter(whole, rg, before)
    decreases rg, 1
  {
    if !rg.unconditional {
      return None;
    }
    var c, written := rg.chain, before;
    while c.Then?
      invariant ChainAfter(whole, rg.chain, before) == ChainAfter(whole, c, written)
      invariant c == rg.chain || c < rg.chain
      decreases c
    {
      var w := WalkBlock(whole, c.block, written);
      if w.None? {
        return None;
      }
      var ok;
      ok, written := StateCovered(whole, c.onEdge, w.value);
      if !ok {
        return None;
      }
      c := c.rest;
    }
    r := Some(written);
  }

  method WalkBlock(whole: Elems, b: Block, before: set<Elem>) returns (r: Elems)
    ensures r == BlockAfter(whole, b, before)
    decreases b, 0
  {
    match b
    case State(accs) =>
      var ok, w := StateCovered(whole, accs, before);
      r := if ok then Some(w) else None;
    case Cond(branches) =>
      if !TestsCovered(whole, branches, before) {
        return None;
      }
      var after := before;
      for i := 0 to |branches|
        invariant BranchesAfter(whole, b, 0, before, before) == BranchesAfter(whole, b, i, before, after)
      {
        var w := Walk(whole, branches[i].body, before);
        if w.None? {
          return None;
        }
        after := after + w.value;
      }
      r := Some(after);
    case Loop(body) => r := Walk(whole, body, before);
    case Nested(body) => r := Walk(whole, body, before);
    case Unknown => r := None;
  }

  // ---------------------------------------------------------------- paths through an iteration

  /** How a block is passed: a branch taken or none, or a number of iterations. */
  datatype BlockRun = Plain | Taken(branch: nat, inner: ChainRun) | NoneTaken | Iterations(iters: seq<ChainRun>)

  datatype ChainRun = EndRun | ThenRun(run: BlockRun, rest: ChainRun)

  /** A read, or a write that is certain to happen and names its elements. */
  datatype Event = Rd(site: nat, elems: Elems) | Wr(written: set<Elem>)

  ghost predicate ValidChain(c: Chain, r: ChainRun)
    decreases c, 1
  {
    match c
    case End => r.EndRun?
    case Then(b, _, rest) => r.ThenRun? && ValidBlock(b, r.run) && ValidChain(rest, r.rest)
  }

  ghost predicate ValidBlock(b: Block, r: BlockRun)
    decreases b, 0
  {
    match b
    case State(_) => r.Plain?
    case Unknown => r.Plain?
    case Cond(branches) =>
      || (r.Taken? && r.branch < |branches| && ValidChain(branches[r.branch].body.chain, r.inner))
      || (r.NoneTaken? && forall br :: br in branches ==> !br.isElse)
    case Loop(body) => r.Iterations? && forall i :: 0 <= i < |r.iters| ==> ValidChain(body.chain, r.iters[i])
    case Nested(body) => r.Taken? && ValidChain(body.chain, r.inner)
  }

  ghost function AccessEvents(a: Access): seq<Event> {
    match a
    case Read(site, es) => [Rd(site, es)]
    case Write(site, es, wcr, certain) =>
      (if wcr then [Rd(site, es)] else []) + (if certain && es.Some? then [Wr(es.value)] else [])
  }

  ghost function AccessesEvents(accs: seq<Access>): seq<Event> {
    if accs == [] then [] else AccessEvents(accs[0]) + AccessesEvents(accs[1..])
  }

  /** The conditions evaluated before a branch is taken, those that name the array. */
  ghost function TestEvents(branches: seq<Branch>): seq<Event> {
    if branches == [] then []
    else (if branches[0].cond.Some? then [Rd(branches[0].cond.value, None)] else []) + TestEvents(branches[1..])
  }

  ghost function ChainTrace(c: Chain, r: ChainRun): seq<Event>
    requires ValidChain(c, r)
    decreases c, 1
  {
    if c.End? then [] else BlockTrace(c.block, r.run) + Behind(c, r.rest)
  }

  /** The events of a chain behind its first block. */
  ghost function Behind(c: Chain, rest: ChainRun): seq<Event>
    requires c.Then? && ValidChain(c.rest, rest)
    decreases c, 0
  {
    AccessesEvents(c.onEdge) + ChainTrace(c.rest, rest)
  }

  ghost function BlockTrace(b: Block, r: BlockRun): seq<Event>
    requires ValidBlock(b, r)
    decreases b, 0
  {
    match b
    case State(accs) => AccessesEvents(accs)
    case Unknown => []
    case Cond(branches) =>
      if r.Taken? then TestEvents(branches[..r.branch + 1]) + ChainTrace(branches[r.branch].body.chain, r.inner)
      else TestEvents(branches)
    case Loop(body) => IterationsTrace(body.chain, r.iters)
    case Nested(body) => ChainTrace(body.chain, r.inner)
  }

  ghost function IterationsTrace(c: Chain, iters: seq<ChainRun>): seq<Event>
    requires forall i :: 0 <= i < |iters| ==> ValidChain(c, iters[i])
    decreases c, 2, |iters|
  {
    if iters == [] then [] else ChainTrace(c, iters[0]) + IterationsTrace(c, iters[1..])
  }

  /** Every loop on the path runs one iteration at most: what happens in an iteration happens in that one. */
  ghost predicate OnceChain(r: ChainRun)
    decreases r
  {
    r.ThenRun? ==> OnceBlock(r.run) && OnceChain(r.rest)
  }

  ghost predicate OnceBlock(r: BlockRun)
    decreases r
  {
    match r
    case Taken(_, inner) => OnceChain(inner)
    case Iterations(iters) => |iters| <= 1 && forall i :: 0 <= i < |iters| ==> OnceChain(iters[i])
    case _ => true
  }

  // ---------------------------------------------------------------- what the walk promises

  ghost predicate WrittenIn(t: seq<Event>, x: Elem) {
    exists k :: 0 <= k < |t| && t[k].Wr? && x in t[k].written
  }

  /** The elements a read needs to have been written. */
  ghost predicate Needs(whole: Elems, e: Event, x: Elem) {
    e.Rd? && match e.elems case Some(es) => x in es case None => whole.Some? && x in whole.value
  }

  /** Some path through the chain, each loop run once at most, reaches the read `e` and writes `x` on the way: if `e`
      is in a loop, `x` is written before the loop or in the same iteration. */
  ghost predicate PreparedIn(c: Chain, e: Event, x: Elem) {
    exists r, i :: ValidChain(c, r) && OnceChain(r) && PreparedAt(ChainTrace(c, r), i, e, x)
  }

  ghost predicate PreparedInBlock(b: Block, e: Event, x: Elem) {
    exists r, i :: ValidBlock(b, r) && OnceBlock(r) && PreparedAt(BlockTrace(b, r), i, e, x)
  }

  ghost predicate PreparedAt(t: seq<Event>, i: nat, e: Event, x: Elem) {
    i < |t| && t[i] == e && WrittenIn(t[..i], x)
  }

  lemma WrittenConcat(a: seq<Event>, b: seq<Event>, x: Elem)
    ensures WrittenIn(a + b, x) <==> WrittenIn(a, x) || WrittenIn(b, x)
  {
    var c := a + b;
    if k :| 0 <= k < |a| && a[k].Wr? && x in a[k].written { assert c[k] == a[k]; }
    if k :| 0 <= k < |b| && b[k].Wr? && x in b[k].written { assert c[|a| + k] == b[k]; }
  }

  lemma PreparedLeft(a: seq<Event>, b: seq<Event>, i: nat, e: Event, x: Elem)
    requires PreparedAt(a, i, e, x)
    ensures PreparedAt(a + b, i, e, x)
  {
    assert (a + b)[..i] == a[..i];
  }

  /** Later, it is enough that the element was written before or since. */
  lemma PreparedRight(a: seq<Event>, b: seq<Event>, i: nat, e: Event, x: Elem)
    requires i < |b| && b[i] == e && (WrittenIn(a, x) || WrittenIn(b[..i], x))
    ensures PreparedAt(a + b, |a| + i, e, x)
  {
    assert (a + b)[..|a| + i] == a + b[..i];
    WrittenConcat(a, b[..i], x);
  }

  /** A straight run of accesses: what it writes is what the walk adds, and its reads are covered. */
  lemma {:induction false} AccessesSound(whole: Elems, accs: seq<Access>, w: set<Elem>)
    requires AccessesAfter(whole, accs, w).Some?
    ensures forall x :: x in AccessesAfter(whole, accs, w).value <==> x in w || WrittenIn(AccessesEvents(accs), x)
    ensures forall i, x :: 0 <= i < |AccessesEvents(accs)| && Needs(whole, AccessesEvents(accs)[i], x) ==>
              x in w || WrittenIn(AccessesEvents(accs)[..i], x)
    decreases |accs|
  {
    if accs != [] {
      var w1 := AccessAfter(whole, accs[0], w).value;
      var head, tail := AccessEvents(accs[0]), AccessesEvents(accs[1..]);
      AccessesSound(whole, accs[1..], w1);
      AccessWrites(whole, accs[0], w);
      forall x ensures WrittenIn(head + tail, x) <==> WrittenIn(head, x) || WrittenIn(tail, x) {
        WrittenConcat(head, tail, x);
      }
      forall i, x | 0 <= i < |head + tail| && Needs(whole, (head + tail)[i], x)
        ensures x in w || WrittenIn((head + tail)[..i], x)
      {
        if i >= |head| {
          assert (head + tail)[..i] == head + tail[..i - |head|];
          WrittenConcat(head, tail[..i - |head|], x);
        }
      }
    }
  }

  lemma AccessWrites(whole: Elems, a: Access, w: set<Elem>)
    requires AccessAfter(whole, a, w).Some?
    ensures forall x :: x in AccessAfter(whole, a, w).value <==> x in w || WrittenIn(AccessEvents(a), x)
    ensures forall i, x :: 0 <= i < |AccessEvents(a)| && Needs(whole, AccessEvents(a)[i], x) ==> x in w
  {
    var t := AccessEvents(a);
    if a.Write? && a.certain && a.elems.Some? {
      assert t[|t| - 1] == Wr(a.elems.value);
    }
  }

  /** Some path through the chain, or the block, writes `x`. */
  ghost predicate ChainWrites(c: Chain, x: Elem) {
    exists r :: ValidChain(c, r) && OnceChain(r) && WrittenIn(ChainTrace(c, r), x)
  }

  ghost predicate BlockWrites(b: Block, x: Elem) {
    exists r :: ValidBlock(b, r) && OnceBlock(r) && WrittenIn(BlockTrace(b, r), x)
  }

  /** The result holds the elements written before and those some path writes, and no others. */
  ghost predicate ChainExact(c: Chain, w: set<Elem>, after: set<Elem>) {
    forall x :: x in after <==> x in w || ChainWrites(c, x)
  }

  ghost predicate BlockExact(b: Block, w: set<Elem>, after: set<Elem>) {
    forall x :: x in after <==> x in w || BlockWrites(b, x)
  }

  /** Whatever path is taken, a read finds each element it needs written before, or prepared on some path to it. */
  ghost predicate ChainPrepared(whole: Elems, c: Chain, w: set<Elem>) {
    forall r, i, x :: ChainReadOk(whole, c, w, r, i, x)
  }

  ghost predicate ChainReadOk(whole: Elems, c: Chain, w: set<Elem>, r: ChainRun, i: nat, x: Elem) {
    ValidChain(c, r) && i < |ChainTrace(c, r)| && Needs(whole, ChainTrace(c, r)[i], x) ==>
      x in w || PreparedIn(c, ChainTrace(c, r)[i], x)
  }

  ghost predicate BlockPrepared(whole: Elems, b: Block, w: set<Elem>) {
    forall r, i, x :: BlockReadOk(whole, b, w, r, i, x)
  }

  ghost predicate BlockReadOk(whole: Elems, b: Block, w: set<Elem>, r: BlockRun, i: nat, x: Elem) {
    ValidBlock(b, r) && i < |BlockTrace(b, r)| && Needs(whole, BlockTrace(b, r)[i], x) ==>
      x in w || PreparedInBlock(b, BlockTrace(b, r)[i], x)
  }

  lemma {:induction false} SomeChainRun(c: Chain) returns (r: ChainRun)
    ensures ValidChain(c, r) && OnceChain(r)
    decreases c, 1
  {
    if c.End? {
      r := EndRun;
    } else {
      var b := SomeBlockRun(c.block);
      var rest := SomeChainRun(c.rest);
      r := ThenRun(b, rest);
    }
  }

  lemma {:induction false} SomeBlockRun(b: Block) returns (r: BlockRun)
    ensures ValidBlock(b, r) && OnceBlock(r)
    decreases b, 0
  {
    match b
    case Cond(branches) =>
      if branches == [] {
        r := NoneTaken;
      } else {
        var inner := SomeChainRun(branches[0].body.chain);
        r := Taken(0, inner);
      }
    case Loop(body) => r := Iterations([]);
    case Nested(body) =>
      var inner := SomeChainRun(body.chain);
      r := Taken(0, inner);
    case _ => r := Plain;
  }

  // ---------------------------------------------------------------- a chain

  lemma ThenExact(whole: Elems, c: Chain, w: set<Elem>, w1: set<Elem>, w2: set<Elem>, after: set<Elem>)
    requires c.Then? && BlockExact(c.block, w, w1) && ChainExact(c.rest, w2, after)
    requires forall x :: x in w2 <==> x in w1 || WrittenIn(AccessesEvents(c.onEdge), x)
    ensures ChainExact(c, w, after)
  {
    var te := AccessesEvents(c.onEdge);
    forall x ensures x in after <==> x in w || ChainWrites(c, x) {
      if x in after && x !in w {
        var r1 := SomeBlockRun(c.block);
        var r2 := SomeChainRun(c.rest);
        if BlockWrites(c.block, x) {
          r1 :| ValidBlock(c.block, r1) && OnceBlock(r1) && WrittenIn(BlockTrace(c.block, r1), x);
        } else if ChainWrites(c.rest, x) {
          r2 :| ValidChain(c.rest, r2) && OnceChain(r2) && WrittenIn(ChainTrace(c.rest, r2), x);
        }
        assert ValidChain(c, ThenRun(r1, r2));
        WrittenConcat(te, ChainTrace(c.rest, r2), x);
        WrittenConcat(BlockTrace(c.block, r1), Behind(c, r2), x);
      }
      if ChainWrites(c, x) {
        var r :| ValidChain(c, r) && OnceChain(r) && WrittenIn(ChainTrace(c, r), x);
        WrittenConcat(te, ChainTrace(c.rest, r.rest), x);
        WrittenConcat(BlockTrace(c.block, r.run), Behind(c, r.rest), x);
        assert WrittenIn(BlockTrace(c.block, r.run), x) ==> BlockWrites(c.block, x);
        assert WrittenIn(ChainTrace(c.rest, r.rest), x) ==> ChainWrites(c.rest, x);
      }
    }
  }

  lemma ThenPrepared(whole: Elems, c: Chain, w: set<Elem>, w1: set<Elem>, w2: set<Elem>)
    requires c.Then? && BlockExact(c.block, w, w1) && BlockPrepared(whole, c.block, w) &&
             ChainPrepared(whole, c.rest, w2)
    requires AccessesAfter(whole, c.onEdge, w1) == Some(w2)
    ensures ChainPrepared(whole, c, w)
  {
    forall r, i: nat, x ensures ChainReadOk(whole, c, w, r, i, x) {
      if ValidChain(c, r) && i < |ChainTrace(c, r)| && Needs(whole, ChainTrace(c, r)[i], x) && x !in w {
        assert x in w1 ==> BlockWrites(c.block, x);
        var k := i - |BlockTrace(c.block, r.run)|;
        if k < 0 {
          assert BlockReadOk(whole, c.block, w, r.run, i, x);
          PreparedInFirst(c, r, i, x);
        } else {
          if k >= |AccessesEvents(c.onEdge)| {
            assert ChainReadOk(whole, c.rest, w2, r.rest, k - |AccessesEvents(c.onEdge)|, x);
          }
          BehindRead(whole, c, w1, w2, r.rest, k, x);
        }
      }
    }
  }

  lemma PreparedInFirst(c: Chain, r: ChainRun, i: nat, x: Elem)
    requires c.Then? && ValidChain(c, r) && i < |BlockTrace(c.block, r.run)|
    requires PreparedInBlock(c.block, BlockTrace(c.block, r.run)[i], x)
    ensures PreparedIn(c, ChainTrace(c, r)[i], x)
  {
    var e := BlockTrace(c.block, r.run)[i];
    var r1, k :| ValidBlock(c.block, r1) && OnceBlock(r1) && PreparedAt(BlockTrace(c.block, r1), k, e, x);
    var r2 := SomeChainRun(c.rest);
    PreparedLeft(BlockTrace(c.block, r1), Behind(c, r2), k, e, x);
    PreparedHere(c, ThenRun(r1, r2), k, e, x);
  }

  lemma PreparedHere(c: Chain, r: ChainRun, i: nat, e: Event, x: Elem)
    requires ValidChain(c, r) && OnceChain(r) && PreparedAt(ChainTrace(c, r), i, e, x)
    ensures PreparedIn(c, e, x)
  {
  }

  /** A read behind the block: of an element the block may write, or written on the edge, or prepared further on. */
  lemma BehindRead(whole: Elems, c: Chain, w1: set<Elem>, w2: set<Elem>, r2: ChainRun, k: nat, x: Elem)
    requires c.Then? && ValidChain(c.rest, r2) && k < |Behind(c, r2)| && Needs(whole, Behind(c, r2)[k], x)
    requires AccessesAfter(whole, c.onEdge, w1) == Some(w2) && (x in w1 ==> BlockWrites(c.block, x))
    requires var n := k - |AccessesEvents(c.onEdge)|; n >= 0 ==> ChainReadOk(whole, c.rest, w2, r2, n, x)
    ensures PreparedIn(c, Behind(c, r2)[k], x)
  {
    var te, e := AccessesEvents(c.onEdge), Behind(c, r2)[k];
    if x in w1 {
      var once, n := BehindOnce(c, r2, k);
      PreparedByBlock(c, once, n, x);
    } else if k < |te| {
      AccessesSound(whole, c.onEdge, w1);
      PreparedOnEdge(c, k, x);
    } else {
      assert e == ChainTrace(c.rest, r2)[k - |te|];
      if x in w2 {
        AccessesSound(whole, c.onEdge, w1);
        var once, n := ReachOnce(c.rest, r2, k - |te|);
        PreparedByEdge(c, once, n, x);
      } else {
        PreparedInRest(c, e, x);
      }
    }
  }

  /** Of an element the block may write: take the path that does. */
  lemma PreparedByBlock(c: Chain, r2: ChainRun, k: nat, x: Elem)
    requires c.Then? && ValidChain(c.rest, r2) && OnceChain(r2) && k < |Behind(c, r2)| && BlockWrites(c.block, x)
    ensures PreparedIn(c, Behind(c, r2)[k], x)
  {
    var r1 :| ValidBlock(c.block, r1) && OnceBlock(r1) && WrittenIn(BlockTrace(c.block, r1), x);
    PreparedBehind(c, r1, r2, k, x);
  }

  lemma PreparedBehind(c: Chain, r1: BlockRun, r2: ChainRun, k: nat, x: Elem)
    requires c.Then? && ValidBlock(c.block, r1) && OnceBlock(r1) && ValidChain(c.rest, r2) && OnceChain(r2)
    requires k < |Behind(c, r2)|
    requires WrittenIn(BlockTrace(c.block, r1), x) || WrittenIn(Behind(c, r2)[..k], x)
    ensures PreparedIn(c, Behind(c, r2)[k], x)
  {
    var t1, e := BlockTrace(c.block, r1), Behind(c, r2)[k];
    PreparedRight(t1, Behind(c, r2), k, e, x);
    PreparedHere(c, ThenRun(r1, r2), |t1| + k, e, x);
  }

  /** A read on the edge, of an element written before it on the edge. */
  lemma PreparedOnEdge(c: Chain, j: nat, x: Elem)
    requires c.Then? && j < |AccessesEvents(c.onEdge)| && WrittenIn(AccessesEvents(c.onEdge)[..j], x)
    ensures PreparedIn(c, AccessesEvents(c.onEdge)[j], x)
  {
    var te := AccessesEvents(c.onEdge);
    var r1 := SomeBlockRun(c.block);
    var r2 := SomeChainRun(c.rest);
    assert Behind(c, r2)[..j] == te[..j];
    PreparedBehind(c, r1, r2, j, x);
  }

  /** A read past the edge, of an element written on the edge. */
  lemma PreparedByEdge(c: Chain, r2: ChainRun, n: nat, x: Elem)
    requires c.Then? && ValidChain(c.rest, r2) && OnceChain(r2) && n < |ChainTrace(c.rest, r2)|
    requires WrittenIn(AccessesEvents(c.onEdge), x)
    ensures PreparedIn(c, ChainTrace(c.rest, r2)[n], x)
  {
    var te, t2 := AccessesEvents(c.onEdge), ChainTrace(c.rest, r2);
    var r1 := SomeBlockRun(c.block);
    PreparedRight(te, t2, n, t2[n], x);
    PreparedBehind(c, r1, r2, |te| + n, x);
  }

  lemma PreparedInRest(c: Chain, e: Event, x: Elem)
    requires c.Then? && PreparedIn(c.rest, e, x)
    ensures PreparedIn(c, e, x)
  {
    var te := AccessesEvents(c.onEdge);
    var r1 := SomeBlockRun(c.block);
    var r2, k :| ValidChain(c.rest, r2) && OnceChain(r2) && PreparedAt(ChainTrace(c.rest, r2), k, e, x);
    PreparedRight(te, ChainTrace(c.rest, r2), k, e, x);
    PreparedBehind(c, r1, r2, |te| + k, x);
  }

  // ---------------------------------------------------------------- one iteration is enough

  /** What some path does, a path that runs each loop once at most does too. */
  lemma {:induction false} ReachOnce(c: Chain, r: ChainRun, i: nat) returns (r': ChainRun, k: nat)
    requires ValidChain(c, r) && i < |ChainTrace(c, r)|
    ensures ValidChain(c, r') && OnceChain(r') && k < |ChainTrace(c, r')| && ChainTrace(c, r')[k] == ChainTrace(c, r)[i]
    decreases c, 1
  {
    var t1 := BlockTrace(c.block, r.run);
    if i < |t1| {
      var b, n := ReachBlockOnce(c.block, r.run, i);
      var rest := SomeChainRun(c.rest);
      r', k := ThenRun(b, rest), n;
    } else {
      var b := SomeBlockRun(c.block);
      var rest, n := BehindOnce(c, r.rest, i - |t1|);
      r', k := ThenRun(b, rest), |BlockTrace(c.block, b)| + n;
    }
  }

  lemma {:induction false} BehindOnce(c: Chain, r2: ChainRun, i: nat) returns (r': ChainRun, k: nat)
    requires c.Then? && ValidChain(c.rest, r2) && i < |Behind(c, r2)|
    ensures ValidChain(c.rest, r') && OnceChain(r') && k < |Behind(c, r')| && Behind(c, r')[k] == Behind(c, r2)[i]
    decreases c, 0
  {
    var te := AccessesEvents(c.onEdge);
    if i < |te| {
      r' := SomeChainRun(c.rest);
      k := i;
    } else {
      r', k := ReachOnce(c.rest, r2, i - |te|);
      k := |te| + k;
    }
  }

  lemma {:induction false} ReachBlockOnce(b: Block, r: BlockRun, i: nat) returns (r': BlockRun, k: nat)
    requires ValidBlock(b, r) && i < |BlockTrace(b, r)|
    ensures ValidBlock(b, r') && OnceBlock(r') && k < |BlockTrace(b, r')| && BlockTrace(b, r')[k] == BlockTrace(b, r)[i]
    decreases b, 0
  {
    r', k := r, i;
    match b
    case Cond(branches) =>
      if r.Taken? {
        var tests := TestEvents(branches[..r.branch + 1]);
        var inner := SomeChainRun(branches[r.branch].body.chain);
        if i >= |tests| {
          inner, k := ReachOnce(branches[r.branch].body.chain, r.inner, i - |tests|);
          k := |tests| + k;
        }
        r' := Taken(r.branch, inner);
      }
    case Loop(body) =>
      var n, j := InSomeIteration(body.chain, r.iters, i);
      var inner;
      inner, k := ReachOnce(body.chain, r.iters[n], j);
      OneIteration(b, inner);
      r' := Iterations([inner]);
    case Nested(body) =>
      var inner;
      inner, k := ReachOnce(body.chain, r.inner, i);
      r' := Taken(0, inner);
    case _ =>
  }

  /** So whatever a run of the chain writes is in the result. */
  lemma RunWrites(c: Chain, r: ChainRun, x: Elem)
    requires ValidChain(c, r) && WrittenIn(ChainTrace(c, r), x)
    ensures ChainWrites(c, x)
  {
    var i :| 0 <= i < |ChainTrace(c, r)| && ChainTrace(c, r)[i].Wr? && x in ChainTrace(c, r)[i].written;
    var r', k := ReachOnce(c, r, i);
    assert WrittenIn(ChainTrace(c, r'), x);
  }

  /** What the walk says of an accepted chain. */
  lemma {:induction false} ChainSound(whole: Elems, c: Chain, w: set<Elem>)
    requires ChainAfter(whole, c, w).Some?
    ensures ChainExact(c, w, ChainAfter(whole, c, w).value) && ChainPrepared(whole, c, w)
    decreases c, 1
  {
    match c
    case End =>
      forall x ensures !ChainWrites(c, x) {
      }
    case Then(b, onEdge, rest) =>
      var w1 := BlockAfter(whole, b, w).value;
      var w2 := AccessesAfter(whole, onEdge, w1).value;
      BlockSound(whole, b, w);
      AccessesSound(whole, onEdge, w1);
      ChainSound(whole, rest, w2);
      ThenExact(whole, c, w, w1, w2, ChainAfter(whole, c, w).value);
      ThenPrepared(whole, c, w, w1, w2);
  }

  // ---------------------------------------------------------------- a block

  lemma {:induction false} BlockSound(whole: Elems, b: Block, w: set<Elem>)
    requires BlockAfter(whole, b, w).Some?
    ensures BlockExact(b, w, BlockAfter(whole, b, w).value) && BlockPrepared(whole, b, w)
    decreases b, 1
  {
    match b
    case State(accs) => StateSound(whole, b, w);
    case Cond(branches) => CondSound(whole, b, w);
    case Loop(body) =>
      ChainSound(whole, body.chain, w);
      LoopSound(whole, b, w);
    case Nested(body) =>
      ChainSound(whole, body.chain, w);
      NestedSound(whole, b, w);
  }

  lemma StateSound(whole: Elems, b: Block, w: set<Elem>)
    requires b.State? && BlockAfter(whole, b, w).Some?
    ensures BlockExact(b, w, BlockAfter(whole, b, w).value) && BlockPrepared(whole, b, w)
  {
    AccessesSound(whole, b.accesses, w);
    var t := AccessesEvents(b.accesses);
    assert ValidBlock(b, Plain) && BlockTrace(b, Plain) == t;
    forall x ensures BlockWrites(b, x) <==> WrittenIn(t, x) {
    }
    forall r, i: nat, x ensures BlockReadOk(whole, b, w, r, i, x) {
      assert ValidBlock(b, r) && i < |t| && Needs(whole, t[i], x) ==>
             x in w || PreparedAt(BlockTrace(b, Plain), i, t[i], x);
    }
  }

  lemma NestedSound(whole: Elems, b: Block, w: set<Elem>)
    requires b.Nested? && BlockAfter(whole, b, w).Some?
    requires ChainExact(b.body.chain, w, BlockAfter(whole, b, w).value) && ChainPrepared(whole, b.body.chain, w)
    ensures BlockExact(b, w, BlockAfter(whole, b, w).value) && BlockPrepared(whole, b, w)
  {
    var c := b.body.chain;
    forall x ensures BlockWrites(b, x) <==> ChainWrites(c, x) {
      if r :| ValidChain(c, r) && OnceChain(r) && WrittenIn(ChainTrace(c, r), x) {
        assert WrittenIn(BlockTrace(b, Taken(0, r)), x);
      }
      if r :| ValidBlock(b, r) && OnceBlock(r) && WrittenIn(BlockTrace(b, r), x) {
        assert WrittenIn(ChainTrace(c, r.inner), x);
      }
    }
    forall r, i: nat, x ensures BlockReadOk(whole, b, w, r, i, x) {
      if ValidBlock(b, r) && i < |BlockTrace(b, r)| && Needs(whole, BlockTrace(b, r)[i], x) && x !in w {
        var e := ChainTrace(c, r.inner)[i];
        assert ChainReadOk(whole, c, w, r.inner, i, x);
        var r', k :| ValidChain(c, r') && OnceChain(r') && PreparedAt(ChainTrace(c, r'), k, e, x);
        assert PreparedAt(BlockTrace(b, Taken(0, r')), k, e, x);
      }
    }
  }

  lemma SomeIteration(b: Block, r: BlockRun, x: Elem)
    requires b.Loop? && ValidBlock(b, r) && WrittenIn(BlockTrace(b, r), x)
    ensures r.iters != []
  {
    assert BlockTrace(b, r) == IterationsTrace(b.body.chain, r.iters);
    assert IterationsTrace(b.body.chain, []) == [];
  }

  lemma OneIteration(b: Block, r: ChainRun)
    requires b.Loop? && ValidChain(b.body.chain, r)
    ensures ValidBlock(b, Iterations([r])) && BlockTrace(b, Iterations([r])) == ChainTrace(b.body.chain, r)
  {
    assert [r][1..] == [];
    assert IterationsTrace(b.body.chain, [r]) == ChainTrace(b.body.chain, r) + [];
  }

  lemma {:induction false} InSomeIteration(c: Chain, iters: seq<ChainRun>, i: nat) returns (k: nat, j: nat)
    requires forall i :: 0 <= i < |iters| ==> ValidChain(c, iters[i])
    requires i < |IterationsTrace(c, iters)|
    ensures k < |iters| && j < |ChainTrace(c, iters[k])| && ChainTrace(c, iters[k])[j] == IterationsTrace(c, iters)[i]
    decreases |iters|
  {
    var t := ChainTrace(c, iters[0]);
    if i < |t| {
      k, j := 0, i;
    } else {
      k, j := InSomeIteration(c, iters[1..], i - |t|);
      k := k + 1;
    }
  }

  lemma LoopSound(whole: Elems, b: Block, w: set<Elem>)
    requires b.Loop? && BlockAfter(whole, b, w).Some?
    requires ChainExact(b.body.chain, w, BlockAfter(whole, b, w).value) && ChainPrepared(whole, b.body.chain, w)
    ensures BlockExact(b, w, BlockAfter(whole, b, w).value) && BlockPrepared(whole, b, w)
  {
    var c := b.body.chain;
    forall x ensures BlockWrites(b, x) <==> ChainWrites(c, x) {
      if r :| ValidChain(c, r) && OnceChain(r) && WrittenIn(ChainTrace(c, r), x) {
        OneIteration(b, r);
      }
      if r :| ValidBlock(b, r) && OnceBlock(r) && WrittenIn(BlockTrace(b, r), x) {
        SomeIteration(b, r, x);
        OneIteration(b, r.iters[0]);
        assert r.iters == [r.iters[0]];
      }
    }
    forall r, i: nat, x ensures BlockReadOk(whole, b, w, r, i, x) {
      if ValidBlock(b, r) && i < |BlockTrace(b, r)| && Needs(whole, BlockTrace(b, r)[i], x) && x !in w {
        var e := BlockTrace(b, r)[i];
        var k, j := InSomeIteration(c, r.iters, i);
        assert ChainReadOk(whole, c, w, r.iters[k], j, x);
        var r', n :| ValidChain(c, r') && OnceChain(r') && PreparedAt(ChainTrace(c, r'), n, e, x);
        OneIteration(b, r');
        assert PreparedAt(BlockTrace(b, Iterations([r'])), n, e, x);
      }
    }
  }

  // ---------------------------------------------------------------- a conditional

  lemma {:induction false} BranchesAre(whole: Elems, b: Block, i: nat, w: set<Elem>, a: set<Elem>)
    requires b.Cond? && i <= |b.branches| && BranchesAfter(whole, b, i, w, a).Some?
    ensures forall k :: i <= k < |b.branches| ==> RegionAfter(whole, b.branches[k].body, w).Some?
    ensures forall x :: x in BranchesAfter(whole, b, i, w, a).value <==>
              x in a || exists k :: i <= k < |b.branches| && x in RegionAfter(whole, b.branches[k].body, w).value
    decreases |b.branches| - i
  {
    if i < |b.branches| {
      BranchesAre(whole, b, i + 1, w, a + RegionAfter(whole, b.branches[i].body, w).value);
    }
  }

  lemma {:induction false} TestsOnlyRead(branches: seq<Branch>)
    ensures forall i :: 0 <= i < |TestEvents(branches)| ==>
            TestEvents(branches)[i].Rd? && TestEvents(branches)[i].elems.None?
    ensures TestEvents(branches) != [] ==> exists br :: br in branches && br.cond.Some?
    decreases |branches|
  {
    if branches != [] {
      TestsOnlyRead(branches[1..]);
      if branches[0].cond.Some? {
        assert branches[0] in branches;
      }
    }
  }

  lemma CondSound(whole: Elems, b: Block, w: set<Elem>)
    requires b.Cond? && BlockAfter(whole, b, w).Some?
    ensures BlockExact(b, w, BlockAfter(whole, b, w).value) && BlockPrepared(whole, b, w)
    decreases b, 0
  {
    var branches, after := b.branches, BlockAfter(whole, b, w).value;
    BranchesAre(whole, b, 0, w, w);
    forall k | 0 <= k < |branches|
      ensures ChainExact(branches[k].body.chain, w, RegionAfter(whole, branches[k].body, w).value)
      ensures ChainPrepared(whole, branches[k].body.chain, w)
    {
      ChainSound(whole, branches[k].body.chain, w);
    }
    CondExact(whole, b, w);
    forall r, i: nat, x ensures BlockReadOk(whole, b, w, r, i, x) {
      if ValidBlock(b, r) && i < |BlockTrace(b, r)| && Needs(whole, BlockTrace(b, r)[i], x) {
        CondRead(whole, b, w, r, i, x);
      }
    }
  }

  lemma CondExact(whole: Elems, b: Block, w: set<Elem>)
    requires b.Cond? && BlockAfter(whole, b, w).Some?
    requires forall k :: 0 <= k < |b.branches| ==> RegionAfter(whole, b.branches[k].body, w).Some?
    requires forall k :: 0 <= k < |b.branches| ==>
               ChainExact(b.branches[k].body.chain, w, RegionAfter(whole, b.branches[k].body, w).value)
    ensures BlockExact(b, w, BlockAfter(whole, b, w).value)
  {
    var branches, after := b.branches, BlockAfter(whole, b, w).value;
    BranchesAre(whole, b, 0, w, w);
    forall k | 0 <= k < |branches| ensures ChainExact(branches[k].body.chain, w,
        RegionAfter(whole, branches[k].body, w).value) {}
    forall x ensures x in after <==> x in w || BlockWrites(b, x) {
      if x in after && x !in w {
        var k :| 0 <= k < |branches| && x in RegionAfter(whole, branches[k].body, w).value;
        BranchWrites(b, k, x);
      }
      if BlockWrites(b, x) {
        var k := WritingBranch(b, x);
      }
    }
  }

  lemma BranchWrites(b: Block, k: nat, x: Elem)
    requires b.Cond? && k < |b.branches| && ChainWrites(b.branches[k].body.chain, x)
    ensures BlockWrites(b, x)
  {
    var c := b.branches[k].body.chain;
    var r :| ValidChain(c, r) && OnceChain(r) && WrittenIn(ChainTrace(c, r), x);
    assert ValidBlock(b, Taken(k, r)) && OnceBlock(Taken(k, r));
    WrittenConcat(TestEvents(b.branches[..k + 1]), ChainTrace(c, r), x);
  }

  lemma WritingBranch(b: Block, x: Elem) returns (k: nat)
    requires b.Cond? && BlockWrites(b, x)
    ensures k < |b.branches| && ChainWrites(b.branches[k].body.chain, x)
  {
    var r :| ValidBlock(b, r) && OnceBlock(r) && WrittenIn(BlockTrace(b, r), x);
    TestsOnlyRead(b.branches);
    k := r.branch;
    TestsOnlyRead(b.branches[..k + 1]);
    WrittenConcat(TestEvents(b.branches[..k + 1]), ChainTrace(b.branches[k].body.chain, r.inner), x);
  }

  lemma CondRead(whole: Elems, b: Block, w: set<Elem>, r: BlockRun, i: nat, x: Elem)
    requires b.Cond? && BlockAfter(whole, b, w).Some? && ValidBlock(b, r)
    requires i < |BlockTrace(b, r)| && Needs(whole, BlockTrace(b, r)[i], x)
    requires forall k :: 0 <= k < |b.branches| ==> ChainPrepared(whole, b.branches[k].body.chain, w)
    ensures x in w || PreparedInBlock(b, BlockTrace(b, r)[i], x)
  {
    var branches, e := b.branches, BlockTrace(b, r)[i];
    var tests := if r.Taken? then TestEvents(branches[..r.branch + 1]) else TestEvents(branches);
    if i < |tests| {
      TestsOnlyRead(if r.Taken? then branches[..r.branch + 1] else branches);
      assert tests[i] == e && e.elems.None?;
      var br :| br in branches && br.cond.Some?;
      assert Covered(whole, w, None);
    } else if x !in w {
      var c, j := branches[r.branch].body.chain, i - |tests|;
      assert ChainTrace(c, r.inner)[j] == e;
      assert ChainReadOk(whole, c, w, r.inner, j, x);
      PreparedInBranch(b, r.branch, e, x);
    }
  }

  lemma PreparedInBranch(b: Block, k: nat, e: Event, x: Elem)
    requires b.Cond? && k < |b.branches| && PreparedIn(b.branches[k].body.chain, e, x)
    ensures PreparedInBlock(b, e, x)
  {
    var c, tests := b.branches[k].body.chain, TestEvents(b.branches[..k + 1]);
    var r, i :| ValidChain(c, r) && OnceChain(r) && PreparedAt(ChainTrace(c, r), i, e, x);
    var taken := Taken(k, r);
    assert ValidBlock(b, taken) && OnceBlock(taken);
    PreparedRight(tests, ChainTrace(c, r), i, e, x);
    assert PreparedAt(BlockTrace(b, taken), |tests| + i, e, x);
  }

  /** `_written_after`: an accepted iteration prepares, on some path to it, every element a read needs; the result holds
      exactly what was written before or on some path. */
  lemma WrittenAfterSound(whole: Elems, rg: Region, w: set<Elem>)
    requires RegionAfter(whole, rg, w).Some?
    ensures ChainPrepared(whole, rg.chain, w)
    ensures ChainExact(rg.chain, w, RegionAfter(whole, rg, w).value)
    ensures forall r, x :: ValidChain(rg.chain, r) && WrittenIn(ChainTrace(rg.chain, r), x) ==>
            x in RegionAfter(whole, rg, w).value
  {
    ChainSound(whole, rg.chain, w);
    forall r, x | ValidChain(rg.chain, r) && WrittenIn(ChainTrace(rg.chain, r), x) ensures ChainWrites(rg.chain, x) {
      RunWrites(rg.chain, r, x);
    }
  }

  // ---------------------------------------------------------------- more written before, more written after

  ghost predicate Le(a: Elems, b: Elems) {
    a.Some? ==> b.Some? && a.value <= b.value
  }

  lemma {:induction false} AccessesMono(whole: Elems, accs: seq<Access>, w: set<Elem>, w': set<Elem>)
    requires w <= w'
    ensures Le(AccessesAfter(whole, accs, w), AccessesAfter(whole, accs, w'))
    decreases |accs|
  {
    if accs != [] {
      var n, n' := AccessAfter(whole, accs[0], w), AccessAfter(whole, accs[0], w');
      if n.Some? {
        AccessesMono(whole, accs[1..], n.value, n'.value);
      }
    }
  }

  lemma {:induction false} ChainMono(whole: Elems, c: Chain, w: set<Elem>, w': set<Elem>)
    requires w <= w'
    ensures Le(ChainAfter(whole, c, w), ChainAfter(whole, c, w'))
    decreases c, 1
  {
    if c.Then? {
      BlockMono(whole, c.block, w, w');
      var n, n' := BlockAfter(whole, c.block, w), BlockAfter(whole, c.block, w');
      if n.Some? {
        AccessesMono(whole, c.onEdge, n.value, n'.value);
        var e, e' := AccessesAfter(whole, c.onEdge, n.value), AccessesAfter(whole, c.onEdge, n'.value);
        if e.Some? {
          ChainMono(whole, c.rest, e.value, e'.value);
        }
      }
    }
  }

  lemma {:induction false} BlockMono(whole: Elems, b: Block, w: set<Elem>, w': set<Elem>)
    requires w <= w'
    ensures Le(BlockAfter(whole, b, w), BlockAfter(whole, b, w'))
    decreases b, 0
  {
    match b
    case State(accs) => AccessesMono(whole, accs, w, w');
    case Cond(branches) => BranchesMono(whole, b, 0, w, w', w, w');
    case Loop(body) => RegionMono(whole, body, w, w');
    case Nested(body) => RegionMono(whole, body, w, w');
    case Unknown =>
  }

  lemma {:induction false} BranchesMono(whole: Elems, b: Block, i: nat, w: set<Elem>, w': set<Elem>, a: set<Elem>,
                                        a': set<Elem>)
    requires b.Cond? && i <= |b.branches| && w <= w' && a <= a'
    ensures Le(BranchesAfter(whole, b, i, w, a), BranchesAfter(whole, b, i, w', a'))
    decreases b, 0, |b.branches| - i
  {
    if i < |b.branches| {
      var body := b.branches[i].body;
      ChainMono(whole, body.chain, w, w');
      var n, n' := RegionAfter(whole, body, w), RegionAfter(whole, body, w');
      if n.Some? {
        BranchesMono(whole, b, i + 1, w, w', a + n.value, a' + n'.value);
      }
    }
  }

  /** The walk is monotone: starting from more, it accepts whatever it accepted, and ends with no less. */
  lemma {:induction false} RegionMono(whole: Elems, rg: Region, w: set<Elem>, w': set<Elem>)
    requires w <= w'
    ensures Le(RegionAfter(whole, rg, w), RegionAfter(whole, rg, w'))
    decreases rg
  {
    ChainMono(whole, rg.chain, w, w');
  }
}
