/** The walk over an iteration refuses nothing it need not: where it does, some run reads an element that no path to
    that read has written. */
module WrittenExact {
  import opened Options
  import opened WrittenAfter

  // ---------------------------------------------------------------- the iterations covered

  /** An array of unknown shape is read by elements that can be named. */
  ghost predicate Nameable(whole: Elems, accs: seq<Access>) {
    forall a :: a in accs && whole.None? ==> a.elems.Some? || (a.Write? && !a.wcr)
  }

  /** Regions always run to their end, and every block is of a kind the walk knows. */
  ghost predicate Known(whole: Elems, c: Chain)
    decreases c, 1
  {
    c.Then? ==> KnownBlock(whole, c.block) && Nameable(whole, c.onEdge) && Known(whole, c.rest)
  }

  ghost predicate KnownBlock(whole: Elems, b: Block)
    decreases b, 0
  {
    match b
    case State(accs) => Nameable(whole, accs)
    case Cond(branches) =>
      forall i :: 0 <= i < |branches| ==>
        && (branches[i].cond.Some? ==> whole.Some?)
        && branches[i].body.unconditional && Known(whole, branches[i].body.chain)
    case Loop(body) => body.unconditional && Known(whole, body.chain)
    case Nested(body) => body.unconditional && Known(whole, body.chain)
    case Unknown => false
  }

  // ---------------------------------------------------------------- each access is told apart by its site

  ghost function AccessSites(accs: seq<Access>): set<nat> {
    set a | a in accs :: a.site
  }

  ghost function TestSites(branches: seq<Branch>): set<nat> {
    set br | br in branches && br.cond.Some? :: br.cond.value
  }

  ghost predicate InChain(c: Chain, site: nat)
    decreases c, 1
  {
    c.Then? && (InBlock(c.block, site) || site in AccessSites(c.onEdge) || InChain(c.rest, site))
  }

  ghost predicate InBlock(b: Block, site: nat)
    decreases b, 0
  {
    match b
    case State(accs) => site in AccessSites(accs)
    case Cond(branches) =>
      site in TestSites(branches) || exists i :: 0 <= i < |branches| && InChain(branches[i].body.chain, site)
    case Loop(body) => InChain(body.chain, site)
    case Nested(body) => InChain(body.chain, site)
    case Unknown => false
  }

  ghost predicate Distinct(accs: seq<Access>) {
    forall i, j :: 0 <= i < j < |accs| ==> accs[i].site != accs[j].site
  }

  ghost predicate Apart(c: Chain)
    decreases c, 1
  {
    c.Then? ==>
      && ApartBlock(c.block) && Distinct(c.onEdge) && Apart(c.rest)
      && forall site :: OnePlace(c, site)
  }

  ghost predicate OnePlace(c: Chain, site: nat)
    requires c.Then?
  {
    && !(InBlock(c.block, site) && site in AccessSites(c.onEdge))
    && !(InBlock(c.block, site) && InChain(c.rest, site))
    && !(site in AccessSites(c.onEdge) && InChain(c.rest, site))
  }

  ghost predicate ApartBlock(b: Block)
    decreases b, 0
  {
    match b
    case State(accs) => Distinct(accs)
    case Cond(branches) =>
      && (forall i :: 0 <= i < |branches| ==> Apart(branches[i].body.chain))
      && (forall i, site :: 0 <= i < |branches| && InChain(branches[i].body.chain, site) ==>
            site !in TestSites(branches))
      && (forall i, j, site :: 0 <= i < j < |branches| ==>
            !(InChain(branches[i].body.chain, site) && InChain(branches[j].body.chain, site)))
    case Loop(body) => Apart(body.chain)
    case Nested(body) => Apart(body.chain)
    case Unknown => true
  }

  // ---------------------------------------------------------------- reads carry the sites of their accesses

  ghost predicate ReadsIn(t: seq<Event>, sites: set<nat>) {
    forall i :: 0 <= i < |t| && t[i].Rd? ==> t[i].site in sites
  }

  lemma {:induction false} AccessReads(accs: seq<Access>)
    ensures ReadsIn(AccessesEvents(accs), AccessSites(accs))
    decreases |accs|
  {
    if accs != [] {
      AccessReads(accs[1..]);
      assert accs[0] in accs;
      assert AccessSites(accs[1..]) <= AccessSites(accs);
    }
  }

  lemma {:induction false} TestReads(branches: seq<Branch>)
    ensures ReadsIn(TestEvents(branches), TestSites(branches))
    decreases |branches|
  {
    if branches != [] {
      TestReads(branches[1..]);
      assert branches[0] in branches;
      assert TestSites(branches[1..]) <= TestSites(branches);
    }
  }

  lemma {:induction false} ChainReads(c: Chain, r: ChainRun, i: nat)
    requires ValidChain(c, r) && i < |ChainTrace(c, r)| && ChainTrace(c, r)[i].Rd?
    ensures InChain(c, ChainTrace(c, r)[i].site)
    decreases c, 1
  {
    var t1, te := BlockTrace(c.block, r.run), AccessesEvents(c.onEdge);
    AccessReads(c.onEdge);
    if i < |t1| {
      BlockReads(c.block, r.run, i);
    } else if i >= |t1| + |te| {
      ChainReads(c.rest, r.rest, i - |t1| - |te|);
    }
  }

  lemma {:induction false} BlockReads(b: Block, r: BlockRun, i: nat)
    requires ValidBlock(b, r) && i < |BlockTrace(b, r)| && BlockTrace(b, r)[i].Rd?
    ensures InBlock(b, BlockTrace(b, r)[i].site)
    decreases b, 0
  {
    match b
    case State(accs) => AccessReads(accs);
    case Cond(branches) =>
      var tests := if r.Taken? then branches[..r.branch + 1] else branches;
      TestReads(tests);
      assert TestSites(tests) <= TestSites(branches);
      if i >= |TestEvents(tests)| {
        ChainReads(branches[r.branch].body.chain, r.inner, i - |TestEvents(tests)|);
      }
    case Loop(body) =>
      var k, j := InSomeIteration(body.chain, r.iters, i);
      ChainReads(body.chain, r.iters[k], j);
    case Nested(body) => ChainReads(body.chain, r.inner, i);
    case Unknown =>
  }

  // ---------------------------------------------------------------- a straight run of accesses

  /** The first read that is not covered: nothing before it writes what it needs, and it is read there only. */
  lemma {:induction false} AccessesRefused(whole: Elems, accs: seq<Access>, w: set<Elem>) returns (i: nat, x: Elem)
    requires AccessesAfter(whole, accs, w).None? && Nameable(whole, accs) && Distinct(accs)
    ensures var t := AccessesEvents(accs);
            && i < |t| && Needs(whole, t[i], x) && x !in w && !WrittenIn(t[..i], x)
            && forall k :: 0 <= k < |t| && t[k] == t[i] ==> k == i
    decreases |accs|
  {
    var head, tail := AccessEvents(accs[0]), AccessesEvents(accs[1..]);
    var t := AccessesEvents(accs);
    AccessReads(accs[1..]);
    assert accs[0] in accs;
    if AccessAfter(whole, accs[0], w).None? {
      i := 0;
      assert head[0] == Rd(accs[0].site, accs[0].elems);
      x := Uncovered(whole, w, accs[0].elems);
      forall k | 0 <= k < |t| && t[k] == t[0] ensures k == 0 {
        SiteLater(accs, k);
      }
    } else {
      var w1 := AccessAfter(whole, accs[0], w).value;
      AccessWrites(whole, accs[0], w);
      var j;
      j, x := AccessesRefused(whole, accs[1..], w1);
      i := |head| + j;
      assert t[..i] == head + tail[..j];
      WrittenConcat(head, tail[..j], x);
      forall k | 0 <= k < |t| && t[k] == t[i] ensures k == i {
        if k < |head| {
          SiteLater(accs, i);
        }
      }
    }
  }

  /** Past the events of the first access come those of others. */
  lemma SiteLater(accs: seq<Access>, k: nat)
    requires accs != [] && Distinct(accs) && k < |AccessesEvents(accs)| && AccessesEvents(accs)[k].Rd?
    ensures AccessesEvents(accs)[k].site == accs[0].site <==> k < |AccessEvents(accs[0])|
    ensures k < |AccessEvents(accs[0])| ==> k == 0
  {
    AccessReads(accs[1..]);
    if k >= |AccessEvents(accs[0])| {
      var e := AccessesEvents(accs[1..])[k - |AccessEvents(accs[0])|];
      var a :| a in accs[1..] && a.site == e.site;
    }
  }

  lemma Uncovered(whole: Elems, w: set<Elem>, elems: Elems) returns (x: Elem)
    requires !Covered(whole, w, elems) && (elems.None? ==> whole.Some?)
    ensures x !in w && match elems case Some(es) => x in es case None => x in whole.value
  {
    var es := if elems.Some? then elems.value else whole.value;
    x :| x in es && x !in w;
  }

  // ---------------------------------------------------------------- a read that nothing prepares

  /** A run, the read in it, and an element it needs. */
  ghost predicate ChainFails(whole: Elems, c: Chain, w: set<Elem>, r: ChainRun, i: nat, x: Elem) {
    && ValidChain(c, r) && i < |ChainTrace(c, r)| && Needs(whole, ChainTrace(c, r)[i], x)
    && x !in w && !PreparedIn(c, ChainTrace(c, r)[i], x)
  }

  ghost predicate BlockFails(whole: Elems, b: Block, w: set<Elem>, r: BlockRun, i: nat, x: Elem) {
    && ValidBlock(b, r) && i < |BlockTrace(b, r)| && Needs(whole, BlockTrace(b, r)[i], x)
    && x !in w && !PreparedInBlock(b, BlockTrace(b, r)[i], x)
  }

  /** Where the prefix of a path through the chain lies that reaches an event. */
  lemma {:induction false} PreparedWhere(c: Chain, e: Event, x: Elem) returns (r: ChainRun, k: nat)
    requires c.Then? && PreparedIn(c, e, x)
    ensures ValidChain(c, r) && OnceChain(r) && PreparedAt(ChainTrace(c, r), k, e, x)
    ensures var t1, te, t2 := BlockTrace(c.block, r.run), AccessesEvents(c.onEdge), ChainTrace(c.rest, r.rest);
            if k < |t1| then PreparedAt(t1, k, e, x)
            else if k < |t1| + |te| then
              te[k - |t1|] == e && (WrittenIn(t1, x) || WrittenIn(te[..k - |t1|], x))
            else
              k - |t1| - |te| < |t2| && t2[k - |t1| - |te|] == e &&
              (WrittenIn(t1, x) || WrittenIn(te, x) || WrittenIn(t2[..k - |t1| - |te|], x))
  {
    r, k :| ValidChain(c, r) && OnceChain(r) && PreparedAt(ChainTrace(c, r), k, e, x);
    var t1, te, t2 := BlockTrace(c.block, r.run), AccessesEvents(c.onEdge), ChainTrace(c.rest, r.rest);
    assert ChainTrace(c, r) == t1 + (te + t2);
    SplitPrefix(t1, te, t2, k, e, x);
  }

  lemma SplitPrefix(t1: seq<Event>, te: seq<Event>, t2: seq<Event>, k: nat, e: Event, x: Elem)
    requires PreparedAt(t1 + (te + t2), k, e, x)
    ensures if k < |t1| then PreparedAt(t1, k, e, x)
            else if k < |t1| + |te| then
              te[k - |t1|] == e && (WrittenIn(t1, x) || WrittenIn(te[..k - |t1|], x))
            else
              k - |t1| - |te| < |t2| && t2[k - |t1| - |te|] == e &&
              (WrittenIn(t1, x) || WrittenIn(te, x) || WrittenIn(t2[..k - |t1| - |te|], x))
  {
    var t := t1 + (te + t2);
    if k < |t1| {
      assert t[..k] == t1[..k];
    } else if k < |t1| + |te| {
      assert t[..k] == t1 + te[..k - |t1|];
      WrittenConcat(t1, te[..k - |t1|], x);
    } else {
      var last := t2[..k - |t1| - |te|];
      assert t[..k] == t1 + (te + last);
      WrittenConcat(t1, te + last, x);
      WrittenConcat(te, last, x);
    }
  }

  /** The site of a read says where it is. */
  lemma {:induction false} ReadPlace(c: Chain, r: ChainRun, k: nat)
    requires c.Then? && ValidChain(c, r) && k < |ChainTrace(c, r)| && ChainTrace(c, r)[k].Rd?
    ensures var site, n1, n2 := ChainTrace(c, r)[k].site, |BlockTrace(c.block, r.run)|, |AccessesEvents(c.onEdge)|;
            if k < n1 then InBlock(c.block, site)
            else if k < n1 + n2 then site in AccessSites(c.onEdge)
            else InChain(c.rest, site)
  {
    var t1, te := BlockTrace(c.block, r.run), AccessesEvents(c.onEdge);
    AccessReads(c.onEdge);
    if k < |t1| {
      BlockReads(c.block, r.run, k);
    } else if k >= |t1| + |te| {
      ChainReads(c.rest, r.rest, k - |t1| - |te|);
    }
  }

  /** A read of the block is prepared within it, if at all. */
  lemma {:induction false} BackInBlock(c: Chain, e: Event, x: Elem)
    requires c.Then? && Apart(c) && e.Rd? && InBlock(c.block, e.site) && PreparedIn(c, e, x)
    ensures PreparedInBlock(c.block, e, x)
  {
    assert OnePlace(c, e.site);
    var r, k := PreparedWhere(c, e, x);
    ReadPlace(c, r, k);
  }

  /** A read on the edge, by the block or on the edge. */
  lemma {:induction false} BackOnEdge(c: Chain, e: Event, x: Elem) returns (n: nat)
    requires c.Then? && Apart(c) && e.Rd? && e.site in AccessSites(c.onEdge) && PreparedIn(c, e, x)
    ensures n < |AccessesEvents(c.onEdge)| && AccessesEvents(c.onEdge)[n] == e
    ensures BlockWrites(c.block, x) || WrittenIn(AccessesEvents(c.onEdge)[..n], x)
  {
    assert OnePlace(c, e.site);
    var r, k := PreparedWhere(c, e, x);
    ReadPlace(c, r, k);
    n := k - |BlockTrace(c.block, r.run)|;
  }

  /** A later read, by the block, on the edge, or later. */
  lemma {:induction false} BackLater(c: Chain, e: Event, x: Elem)
    requires c.Then? && Apart(c) && e.Rd? && InChain(c.rest, e.site) && PreparedIn(c, e, x)
    ensures BlockWrites(c.block, x) || WrittenIn(AccessesEvents(c.onEdge), x) || PreparedIn(c.rest, e, x)
  {
    assert OnePlace(c, e.site);
    var r, k := PreparedWhere(c, e, x);
    var t1, te := BlockTrace(c.block, r.run), AccessesEvents(c.onEdge);
    ReadPlace(c, r, k);
    assert WrittenIn(ChainTrace(c.rest, r.rest)[..k - |t1| - |te|], x) ==>
           PreparedAt(ChainTrace(c.rest, r.rest), k - |t1| - |te|, e, x);
  }

  // ---------------------------------------------------------------- a chain

  lemma {:induction false} ChainRefused(whole: Elems, c: Chain, w: set<Elem>) returns (r: ChainRun, i: nat, x: Elem)
    requires ChainAfter(whole, c, w).None? && Known(whole, c) && Apart(c)
    ensures ChainFails(whole, c, w, r, i, x)
    decreases c, 1
  {
    if BlockAfter(whole, c.block, w).None? {
      var r1;
      r1, i, x := BlockRefused(whole, c.block, w);
      var r2 := SomeChainRun(c.rest);
      r := ThenRun(r1, r2);
      FailsInBlock(whole, c, w, r1, r2, i, x);
    } else {
      var w1 := BlockAfter(whole, c.block, w).value;
      BlockSound(whole, c.block, w);
      if AccessesAfter(whole, c.onEdge, w1).None? {
        r, i, x := FailsOnEdge(whole, c, w, w1);
      } else {
        var w2 := AccessesAfter(whole, c.onEdge, w1).value;
        AccessesSound(whole, c.onEdge, w1);
        var r2, k;
        r2, k, x := ChainRefused(whole, c.rest, w2);
        var r1 := SomeBlockRun(c.block);
        r, i := ThenRun(r1, r2), |BlockTrace(c.block, r1)| + |AccessesEvents(c.onEdge)| + k;
        FailsLater(whole, c, w, w1, w2, r1, r2, k, x);
      }
    }
  }

  lemma {:induction false} FailsInBlock(whole: Elems, c: Chain, w: set<Elem>, r1: BlockRun, r2: ChainRun, i: nat,
                                        x: Elem)
    requires c.Then? && Apart(c) && BlockFails(whole, c.block, w, r1, i, x) && ValidChain(c.rest, r2)
    ensures ChainFails(whole, c, w, ThenRun(r1, r2), i, x)
  {
    BlockReads(c.block, r1, i);
    if PreparedIn(c, BlockTrace(c.block, r1)[i], x) {
      BackInBlock(c, BlockTrace(c.block, r1)[i], x);
    }
  }

  lemma {:induction false} FailsOnEdge(whole: Elems, c: Chain, w: set<Elem>, w1: set<Elem>)
    returns (r: ChainRun, i: nat, x: Elem)
    requires c.Then? && Known(whole, c) && Apart(c) && BlockExact(c.block, w, w1)
    requires AccessesAfter(whole, c.onEdge, w1).None?
    ensures ChainFails(whole, c, w, r, i, x)
  {
    var te := AccessesEvents(c.onEdge);
    var j;
    j, x := AccessesRefused(whole, c.onEdge, w1);
    AccessReads(c.onEdge);
    var r1 := SomeBlockRun(c.block);
    var r2 := SomeChainRun(c.rest);
    r, i := ThenRun(r1, r2), |BlockTrace(c.block, r1)| + j;
    assert ChainTrace(c, r) == BlockTrace(c.block, r1) + (te + ChainTrace(c.rest, r2));
    if PreparedIn(c, te[j], x) {
      var n := BackOnEdge(c, te[j], x);
    }
  }

  lemma {:induction false} FailsLater(whole: Elems, c: Chain, w: set<Elem>, w1: set<Elem>, w2: set<Elem>,
                                      r1: BlockRun, r2: ChainRun,
                   n: nat, x: Elem)
    requires c.Then? && Apart(c) && BlockExact(c.block, w, w1) && ValidBlock(c.block, r1)
    requires forall y :: y in w2 <==> y in w1 || WrittenIn(AccessesEvents(c.onEdge), y)
    requires ChainFails(whole, c.rest, w2, r2, n, x)
    ensures ChainFails(whole, c, w, ThenRun(r1, r2),
                       |BlockTrace(c.block, r1)| + |AccessesEvents(c.onEdge)| + n, x)
  {
    var te, e := AccessesEvents(c.onEdge), ChainTrace(c.rest, r2)[n];
    ChainReads(c.rest, r2, n);
    assert ChainTrace(c, ThenRun(r1, r2)) == BlockTrace(c.block, r1) + (te + ChainTrace(c.rest, r2));
    if PreparedIn(c, e, x) {
      BackLater(c, e, x);
    }
  }

  // ---------------------------------------------------------------- a block

  lemma {:induction false} BlockRefused(whole: Elems, b: Block, w: set<Elem>) returns (r: BlockRun, i: nat, x: Elem)
    requires BlockAfter(whole, b, w).None? && KnownBlock(whole, b) && ApartBlock(b)
    ensures BlockFails(whole, b, w, r, i, x)
    decreases b, 0
  {
    match b
    case State(accs) =>
      i, x := AccessesRefused(whole, accs, w);
      r := Plain;
    case Cond(branches) =>
      if !TestsCovered(whole, branches, w) {
        r, i, x := TestFails(whole, b, w);
      } else {
        var k := RefusedBranch(whole, b, 0, w, w);
        var inner, j;
        inner, j, x := ChainRefused(whole, branches[k].body.chain, w);
        r, i := Taken(k, inner), |TestEvents(branches[..k + 1])| + j;
        BranchFails(whole, b, w, k, inner, j, x);
      }
    case Loop(body) =>
      var inner;
      inner, i, x := ChainRefused(whole, body.chain, w);
      r := Iterations([inner]);
      LoopFails(whole, b, w, inner, i, x);
    case Nested(body) =>
      var inner;
      inner, i, x := ChainRefused(whole, body.chain, w);
      r := Taken(0, inner);
      NestedFails(whole, b, w, inner, i, x);
  }

  lemma BackInNested(b: Block, e: Event, x: Elem)
    requires b.Nested? && PreparedInBlock(b, e, x)
    ensures PreparedIn(b.body.chain, e, x)
  {
    var r, k :| ValidBlock(b, r) && OnceBlock(r) && PreparedAt(BlockTrace(b, r), k, e, x);
    assert PreparedAt(ChainTrace(b.body.chain, r.inner), k, e, x);
  }

  lemma NestedFails(whole: Elems, b: Block, w: set<Elem>, inner: ChainRun, i: nat, x: Elem)
    requires b.Nested? && ChainFails(whole, b.body.chain, w, inner, i, x)
    ensures BlockFails(whole, b, w, Taken(0, inner), i, x)
  {
    if PreparedInBlock(b, ChainTrace(b.body.chain, inner)[i], x) {
      BackInNested(b, ChainTrace(b.body.chain, inner)[i], x);
    }
  }

  lemma BackInLoop(b: Block, e: Event, x: Elem)
    requires b.Loop? && PreparedInBlock(b, e, x)
    ensures PreparedIn(b.body.chain, e, x)
  {
    var r, k :| ValidBlock(b, r) && OnceBlock(r) && PreparedAt(BlockTrace(b, r), k, e, x);
    assert IterationsTrace(b.body.chain, []) == [];
    assert r.iters == [r.iters[0]];
    OneIteration(b, r.iters[0]);
    assert PreparedAt(ChainTrace(b.body.chain, r.iters[0]), k, e, x);
  }

  lemma LoopFails(whole: Elems, b: Block, w: set<Elem>, inner: ChainRun, i: nat, x: Elem)
    requires b.Loop? && ChainFails(whole, b.body.chain, w, inner, i, x)
    ensures BlockFails(whole, b, w, Iterations([inner]), i, x)
  {
    OneIteration(b, inner);
    if PreparedInBlock(b, ChainTrace(b.body.chain, inner)[i], x) {
      BackInLoop(b, ChainTrace(b.body.chain, inner)[i], x);
    }
  }

  lemma {:induction false} RefusedBranch(whole: Elems, b: Block, i: nat, w: set<Elem>, a: set<Elem>) returns (k: nat)
    requires b.Cond? && i <= |b.branches| && BranchesAfter(whole, b, i, w, a).None?
    ensures i <= k < |b.branches| && RegionAfter(whole, b.branches[k].body, w).None?
    decreases |b.branches| - i
  {
    var n := RegionAfter(whole, b.branches[i].body, w);
    if n.None? {
      k := i;
    } else {
      k := RefusedBranch(whole, b, i + 1, w, a + n.value);
    }
  }

  /** The tests evaluated on the way into a branch, and its events. */
  lemma {:induction false} BranchReads(b: Block, r: BlockRun, k: nat)
    requires b.Cond? && ApartBlock(b) && ValidBlock(b, r) && k < |BlockTrace(b, r)| && BlockTrace(b, r)[k].Rd?
    ensures var n := |TestEvents(if r.Taken? then b.branches[..r.branch + 1] else b.branches)|;
            if k < n then BlockTrace(b, r)[k].site in TestSites(b.branches)
            else r.Taken? && InChain(b.branches[r.branch].body.chain, BlockTrace(b, r)[k].site)
  {
    var tests := if r.Taken? then b.branches[..r.branch + 1] else b.branches;
    TestReads(tests);
    assert TestSites(tests) <= TestSites(b.branches);
    if k >= |TestEvents(tests)| {
      ChainReads(b.branches[r.branch].body.chain, r.inner, k - |TestEvents(tests)|);
    }
  }

  /** A read in a branch is prepared within that branch: tests write nothing. */
  lemma {:induction false} BackInBranch(b: Block, n: nat, e: Event, x: Elem)
    requires b.Cond? && ApartBlock(b) && n < |b.branches| && e.Rd? && InChain(b.branches[n].body.chain, e.site)
    requires PreparedInBlock(b, e, x)
    ensures PreparedIn(b.branches[n].body.chain, e, x)
  {
    var c, tests := b.branches[n].body.chain, TestEvents(b.branches[..n + 1]);
    var r, k :| ValidBlock(b, r) && OnceBlock(r) && PreparedAt(BlockTrace(b, r), k, e, x);
    BranchReads(b, r, k);
    assert r.Taken? && r.branch == n && BlockTrace(b, r) == tests + ChainTrace(c, r.inner);
    AfterTests(b.branches[..n + 1], ChainTrace(c, r.inner), k, e, x);
  }

  lemma AfterTests(branches: seq<Branch>, t: seq<Event>, k: nat, e: Event, x: Elem)
    requires |TestEvents(branches)| <= k && PreparedAt(TestEvents(branches) + t, k, e, x)
    ensures PreparedAt(t, k - |TestEvents(branches)|, e, x)
  {
    var tests := TestEvents(branches);
    TestsOnlyRead(branches);
    assert (tests + t)[..k] == tests + t[..k - |tests|];
    WrittenConcat(tests, t[..k - |tests|], x);
  }

  lemma {:induction false} BranchFails(whole: Elems, b: Block, w: set<Elem>, n: nat, inner: ChainRun, j: nat, x: Elem)
    requires b.Cond? && ApartBlock(b) && n < |b.branches| && ChainFails(whole, b.branches[n].body.chain, w, inner, j, x)
    ensures BlockFails(whole, b, w, Taken(n, inner), |TestEvents(b.branches[..n + 1])| + j, x)
  {
    var c := b.branches[n].body.chain;
    ChainReads(c, inner, j);
    if PreparedInBlock(b, ChainTrace(c, inner)[j], x) {
      BackInBranch(b, n, ChainTrace(c, inner)[j], x);
    }
  }

  /** Nothing in a conditional is written before its tests. */
  lemma TestNeverPrepared(b: Block, e: Event, x: Elem)
    requires b.Cond? && ApartBlock(b) && e.Rd? && e.site in TestSites(b.branches)
    ensures !PreparedInBlock(b, e, x)
  {
    forall r, k: nat | ValidBlock(b, r) && k < |BlockTrace(b, r)| && BlockTrace(b, r)[k] == e
      ensures !WrittenIn(BlockTrace(b, r)[..k], x)
    {
      BranchReads(b, r, k);
      var tests := if r.Taken? then b.branches[..r.branch + 1] else b.branches;
      TestsOnlyRead(tests);
      assert BlockTrace(b, r)[..k] == TestEvents(tests)[..k];
    }
  }

  /** A test that reads the array before all of it is written. */
  lemma {:induction false} TestFails(whole: Elems, b: Block, w: set<Elem>) returns (r: BlockRun, i: nat, x: Elem)
    requires b.Cond? && KnownBlock(whole, b) && ApartBlock(b) && !TestsCovered(whole, b.branches, w)
    ensures BlockFails(whole, b, w, r, i, x)
  {
    var branches := b.branches;
    var br :| br in branches && br.cond.Some? && !Covered(whole, w, None);
    var n :| 0 <= n < |branches| && branches[n] == br;
    x := Uncovered(whole, w, None);
    var inner := SomeChainRun(branches[n].body.chain);
    r := Taken(n, inner);
    i := LastTest(branches, n);
    assert BlockTrace(b, r)[i] == Rd(br.cond.value, None);
    TestNeverPrepared(b, Rd(br.cond.value, None), x);
  }

  lemma {:induction false} LastTest(branches: seq<Branch>, n: nat) returns (i: nat)
    requires n < |branches| && branches[n].cond.Some?
    ensures i < |TestEvents(branches[..n + 1])| && TestEvents(branches[..n + 1])[i] == Rd(branches[n].cond.value, None)
    decreases n
  {
    assert branches[..n + 1][0] == branches[0];
    if n == 0 {
      i := 0;
    } else {
      i := LastTest(branches[1..], n - 1);
      assert branches[..n + 1][1..] == branches[1..][..n];
      i := i + if branches[0].cond.Some? then 1 else 0;
    }
  }

  // ---------------------------------------------------------------- the exact condition

  /** The walk accepts an iteration exactly when, whatever path is taken, each read finds every element it needs written
      before the iteration or on some path to it that runs each loop once at most. */
  lemma WrittenAfterIff(whole: Elems, rg: Region, w: set<Elem>)
    requires rg.unconditional && Known(whole, rg.chain) && Apart(rg.chain)
    ensures RegionAfter(whole, rg, w).Some? <==> ChainPrepared(whole, rg.chain, w)
  {
    if RegionAfter(whole, rg, w).Some? {
      WrittenAfterSound(whole, rg, w);
    } else {
      var r, i, x := ChainRefused(whole, rg.chain, w);
      assert !ChainReadOk(whole, rg.chain, w, r, i, x);
    }
  }
}
