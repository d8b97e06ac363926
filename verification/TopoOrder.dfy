/** Ordering source files by their USE statements: a recursive depth-first walk that carries a "visiting" mark and so
    survives cycles, and the worklist that cuts a build down to what one root module needs. */
module TopoOrder {
  import opened Digraph
  import opened Options

  type File = string
  type Module = string

  /** What a file defines and what it uses. */
  datatype Text = Text(modules: seq<Module>, uses: seq<Module>)

  // ---------------------------------------------------------------- who owns a module

  /** The last file that defines a module owns it. */
  ghost function OwnerOf(texts: File -> Text, sources: seq<File>, m: Module): Option<File>
    decreases |sources|
  {
    if sources == [] then None
    else
      var n := |sources| - 1;
      if m in texts(sources[n]).modules then Some(sources[n]) else OwnerOf(texts, sources[..n], m)
  }

  lemma {:induction false} OwnerDefines(texts: File -> Text, sources: seq<File>, m: Module)
    ensures var r := OwnerOf(texts, sources, m);
            && (r.Some? ==> r.value in sources && m in texts(r.value).modules)
            && (r.None? ==> forall f :: f in sources ==> m !in texts(f).modules)
    decreases |sources|
  {
    if sources != [] {
      var n := |sources| - 1;
      assert sources == sources[..n] + [sources[n]];
      OwnerDefines(texts, sources[..n], m);
    }
  }

  /** The table `module_owner`. */
  ghost predicate Owns(texts: File -> Text, sources: seq<File>, owner: map<Module, File>) {
    forall m :: OwnerOf(texts, sources, m) == if m in owner then Some(owner[m]) else None
  }

  /** The table `file_uses`. */
  ghost predicate Lists(texts: File -> Text, sources: seq<File>, uses: map<File, seq<Module>>) {
    (forall f :: f in uses <==> f in sources) && forall f :: f in uses ==> uses[f] == texts(f).uses
  }

  /** The loop both functions start with: who defines and who uses what. */
  method ReadSources(texts: File -> Text, sources: seq<File>)
    returns (owner: map<Module, File>, uses: map<File, seq<Module>>)
    ensures Owns(texts, sources, owner) && Lists(texts, sources, uses)
  {
    owner, uses := map[], map[];
    for n := 0 to |sources|
      invariant Owns(texts, sources[..n], owner) && Lists(texts, sources[..n], uses)
    {
      var src := sources[n];
      assert sources[..n + 1] == sources[..n] + [src];
      owner := AddModules(texts, sources[..n], src, owner);
      uses := uses[src := texts(src).uses];
    }
    assert sources[..|sources|] == sources;
  }

  method AddModules(texts: File -> Text, ghost before: seq<File>, src: File, owner0: map<Module, File>)
    returns (owner: map<Module, File>)
    requires Owns(texts, before, owner0)
    ensures Owns(texts, before + [src], owner)
  {
    owner := owner0;
    var ms := texts(src).modules;
    for k := 0 to |ms|
      invariant forall m :: m in owner <==> m in owner0 || m in ms[..k]
      invariant forall m :: m in owner ==> owner[m] == if m in ms[..k] then src else owner0[m]
    {
      owner := owner[ms[k] := src];
    }
    assert ms[..|ms|] == ms;
    forall m ensures OwnerOf(texts, before + [src], m) == if m in owner then Some(owner[m]) else None {}
  }

  /** A file uses a module that another (or the same) file owns. */
  ghost predicate Pulls(texts: File -> Text, sources: seq<File>, f: File, g: File) {
    f in sources && exists m :: m in texts(f).uses && OwnerOf(texts, sources, m) == Some(g)
  }

  ghost function PullEdges(texts: File -> Text, sources: seq<File>): set<(File, File)> {
    set f, g | f in sources && g in sources && Pulls(texts, sources, f, g) :: (f, g)
  }

  /** The files one file needs compiled before it. */
  ghost function Needs(texts: File -> Text, sources: seq<File>): set<(File, File)> {
    set f, g | f in sources && g in sources && f != g && Pulls(texts, sources, f, g) :: (f, g)
  }

  // ---------------------------------------------------------------- the order

  ghost predicate NoRepeats(s: seq<File>) {
    forall i, j :: 0 <= i < j < |s| ==> s[i] != s[j]
  }

  /** A file stands before a file it needs only when that need lies on a cycle. */
  ghost predicate OnlyCyclesBroken(E: set<(File, File)>, order: seq<File>) {
    forall i, j :: 0 <= i < j < |order| && (order[i], order[j]) in E ==> Reach(E, order[j], order[i])
  }

  /** In reach of the first `k` sources. */
  ghost predicate Within(E: set<(File, File)>, sources: seq<File>, k: int, f: File) {
    exists i :: 0 <= i < k && i < |sources| && Reach(E, sources[i], f)
  }

  /** What the first sources reach comes first. */
  ghost predicate EarlySourcesFirst(E: set<(File, File)>, sources: seq<File>, order: seq<File>) {
    forall k, i, j :: 0 <= k <= |sources| && 0 <= i < j < |order| && Within(E, sources, k, order[j]) ==>
      Within(E, sources, k, order[i])
  }

  /** A source no earlier one reaches ends the block of files it brings in. */
  ghost predicate SourceEndsBlock(E: set<(File, File)>, sources: seq<File>, order: seq<File>) {
    forall k, i, j ::
      0 <= k < |sources| && 0 <= i < j < |order| && order[i] == sources[k] && Within(E, sources, k + 1, order[j]) ==>
        Within(E, sources, k, order[i])
  }

  datatype Mark = Visiting | Done

  ghost function Visitors(state: map<File, Mark>): set<File> {
    set f | f in state && state[f].Visiting?
  }

  /** `order` lists the files done; what a done file needs is done before it, or is in progress and reaches it. */
  ghost predicate Keeps(E: set<(File, File)>, state: map<File, Mark>, order: seq<File>) {
    && (forall f :: f in order <==> f in state && state[f].Done?)
    && NoRepeats(order)
    && (forall i, v :: 0 <= i < |order| && (order[i], v) in E ==> Settled(E, state, order, i, v))
  }

  ghost predicate Settled(E: set<(File, File)>, state: map<File, Mark>, order: seq<File>, i: nat, v: File)
    requires i < |order|
  {
    v in order[..i] || (v in state && Reach(E, v, order[i]))
  }

  lemma FinishKeeps(E: set<(File, File)>, state: map<File, Mark>, order: seq<File>, src: File)
    requires Keeps(E, state, order) && src in state && state[src].Visiting?
    requires forall v :: (src, v) in E ==> v in order || (v in state && Reach(E, v, src))
    ensures Keeps(E, state[src := Done], order + [src])
  {
    var state', order' := state[src := Done], order + [src];
    forall i, v | 0 <= i < |order'| && (order'[i], v) in E ensures Settled(E, state', order', i, v) {
      if i < |order| {
        assert Settled(E, state, order, i, v) && order'[..i] == order[..i];
      } else {
        assert order'[..i] == order;
      }
    }
  }

  /** The state the nested visit works on. */
  class Sorter {
    const uses: map<File, seq<Module>>
    const owner: map<Module, File>
    var state: map<File, Mark>
    var order: seq<File>

    constructor (uses: map<File, seq<Module>>, owner: map<Module, File>)
      ensures this.uses == uses && this.owner == owner && state == map[] && order == []
    {
      this.uses, this.owner := uses, owner;
      state, order := map[], [];
    }

    /** Who needs whom, read off the tables. */
    ghost function Edges(): set<(File, File)> {
      set f, m | f in uses && m in uses[f] && m in owner && owner[m] != f :: (f, owner[m])
    }

    ghost predicate Valid() reads this {
      && (forall m :: m in owner ==> owner[m] in uses)
      && state.Keys <= uses.Keys
      && Keeps(Edges(), state, order)
    }

    /** Everything added is in reach of `src`, which comes last. */
    ghost predicate Grew(before: seq<File>, marked: set<File>, src: File) reads this {
      && before <= order && marked <= state.Keys
      && (forall i :: |before| <= i < |order| ==> Reach(Edges(), src, order[i]))
    }

    method Visit(src: File)
      requires Valid() && src in uses
      requires forall v :: v in Visitors(state) ==> Reach(Edges(), v, src)
      modifies this`state, this`order
      ensures Valid() && src in state && Visitors(state) == Visitors(old(state))
      ensures Grew(old(order), old(state.Keys), src)
      ensures if src in old(state) then state == old(state) && order == old(order)
              else |order| > |old(order)| && order[|order| - 1] == src
      decreases uses.Keys - state.Keys, 0
    {
      if src in state && state[src] == Done {
        return;
      }
      if src in state && state[src] == Visiting {
        return;
      }
      ghost var E := Edges();
      state := state[src := Visiting];
      assert Visitors(state) == Visitors(old(state)) + {src};
      ReachRefl(E, src);
      for k := 0 to |uses[src]|
        invariant Valid() && src in state && Visitors(state) == Visitors(old(state)) + {src}
        invariant Grew(old(order), old(state.Keys), src)
        invariant forall n :: 0 <= n < k && uses[src][n] in owner ==> owner[uses[src][n]] in state
      {
        var m := uses[src][k];
        if m in owner && owner[m] != src {
          Descend(src, owner[m], old(order), old(state.Keys));
        }
      }
      forall v | (src, v) in E ensures v in order || (v in state && Reach(E, v, src)) {
        assert v in state;
        assert v in Visitors(state) || v in order;
      }
      FinishKeeps(E, state, order, src);
      state := state[src := Done];
      order := order + [src];
    }

    /** One recursive call of the visit, from the file in progress to a file it needs. */
    method Descend(src: File, dst: File, ghost before: seq<File>, ghost marked: set<File>)
      requires Valid() && src in uses && src in state && state[src].Visiting? && (src, dst) in Edges() && dst in uses
      requires forall v :: v in Visitors(state) ==> Reach(Edges(), v, src)
      requires Grew(before, marked, src)
      modifies this`state, this`order
      ensures Valid() && dst in state && Visitors(state) == Visitors(old(state))
      ensures Grew(before, marked, src) && old(state.Keys) <= state.Keys
      decreases uses.Keys - state.Keys, 1
    {
      ghost var E := Edges();
      forall v | v in Visitors(state) ensures Reach(E, v, dst) {
        ReachThenEdge(E, v, src, dst);
      }
      Visit(dst);
      forall i | |before| <= i < |order| ensures Reach(E, src, order[i]) {
        if i >= |old(order)| {
          ReachStep(E, src, dst, order[i]);
        } else {
          assert order[i] == old(order)[i];
        }
      }
    }
  }

  // ---------------------------------------------------------------- `_topo_order`

  ghost predicate Sorted(E: set<(File, File)>, sources: seq<File>, order: seq<File>) {
    && NoRepeats(order) && (forall f :: f in order <==> f in sources)
    && OnlyCyclesBroken(E, order)
    && EarlySourcesFirst(E, sources, order) && SourceEndsBlock(E, sources, order)
  }

  /** With nothing in progress, what a done file reaches is done. */
  lemma DoneClosed(E: set<(File, File)>, state: map<File, Mark>, order: seq<File>, f: File, g: File)
    requires Keeps(E, state, order) && Visitors(state) == {} && f in order && Reach(E, f, g)
    ensures g in order
  {
    var done := set x | x in order;
    forall e | e in E && e.0 in done ensures e.1 in done {
      var i :| 0 <= i < |order| && order[i] == e.0;
      assert Settled(E, state, order, i, e.1);
      assert e.1 !in Visitors(state);
    }
    var p :| Walk(E, f, p, g);
    WalkInClosed(E, done, f, p, g);
  }

  /** The files done are those the first `n` sources reach. */
  ghost predicate DoneWithin(E: set<(File, File)>, sources: seq<File>, n: nat, order: seq<File>) {
    forall f :: f in order <==> Within(E, sources, n, f)
  }

  /** A source's visit added a block: files it reaches and no earlier one does, itself last. */
  ghost predicate AddedBlock(E: set<(File, File)>, src: File, order: seq<File>, order': seq<File>) {
    && order <= order'
    && (forall i :: |order| <= i < |order'| ==> Reach(E, src, order'[i]))
    && (order' == order || (|order'| > |order| && order'[|order'| - 1] == src))
  }

  lemma BlockDone(E: set<(File, File)>, sources: seq<File>, n: nat, state: map<File, Mark>, order: seq<File>,
                  order': seq<File>)
    requires n < |sources| && DoneWithin(E, sources, n, order) && AddedBlock(E, sources[n], order, order')
    requires Keeps(E, state, order') && Visitors(state) == {} && sources[n] in order'
    ensures DoneWithin(E, sources, n + 1, order')
  {
    forall f | f in order' ensures Within(E, sources, n + 1, f) {
      var i :| 0 <= i < |order'| && order'[i] == f;
      if i < |order| {
        assert order[i] in order;
        var k :| 0 <= k < n && k < |sources| && Reach(E, sources[k], f);
      } else {
        assert Reach(E, sources[n], f);
      }
    }
    forall f | Within(E, sources, n + 1, f) ensures f in order' {
      var k :| 0 <= k < n + 1 && k < |sources| && Reach(E, sources[k], f);
      if k < n {
        assert Within(E, sources, n, f) && f in order;
      } else {
        DoneClosed(E, state, order', sources[n], f);
      }
    }
  }

  lemma WithinMore(E: set<(File, File)>, sources: seq<File>, n: int, k: int, f: File)
    requires n <= k && Within(E, sources, n, f)
    ensures Within(E, sources, k, f)
  {
    var i :| 0 <= i < n && i < |sources| && Reach(E, sources[i], f);
  }

  lemma BlockOrdered(E: set<(File, File)>, sources: seq<File>, n: nat, order: seq<File>, order': seq<File>)
    requires n < |sources| && DoneWithin(E, sources, n, order) && DoneWithin(E, sources, n + 1, order')
    requires AddedBlock(E, sources[n], order, order') && NoRepeats(order')
    requires EarlySourcesFirst(E, sources, order) && SourceEndsBlock(E, sources, order)
    ensures EarlySourcesFirst(E, sources, order') && SourceEndsBlock(E, sources, order')
  {
    forall k, i, j | 0 <= k <= |sources| && 0 <= i < j < |order'| && Within(E, sources, k, order'[j])
      ensures Within(E, sources, k, order'[i])
    {
      if j < |order| {
        assert order'[i] == order[i] && order'[j] == order[j];
      } else {
        NewFromHere(E, sources, n, k, order, order', j);
        assert order'[i] in order';
        WithinMore(E, sources, n + 1, k, order'[i]);
      }
    }
    forall k, i, j | 0 <= k < |sources| && 0 <= i < j < |order'| && order'[i] == sources[k] &&
        Within(E, sources, k + 1, order'[j])
      ensures Within(E, sources, k, order'[i])
    {
      if j < |order| {
        assert order'[i] == order[i] && order'[j] == order[j];
      } else {
        NewFromHere(E, sources, n, k + 1, order, order', j);
        assert order'[i] in order' && k != n;
        WithinMore(E, sources, n + 1, k, order'[i]);
      }
    }
  }

  lemma NewFromHere(E: set<(File, File)>, sources: seq<File>, n: nat, k: int, order: seq<File>, order': seq<File>,
                    j: nat)
    requires DoneWithin(E, sources, n, order) && order <= order' && NoRepeats(order') && |order| <= j < |order'|
    requires Within(E, sources, k, order'[j])
    ensures n < k
  {
    forall i | 0 <= i < |order| ensures order[i] != order'[j] {
      assert order'[i] == order[i];
    }
    if k <= n {
      WithinMore(E, sources, k, n, order'[j]);
    }
  }

  /** Each source once; only a need on a cycle is broken; files come in blocks, one for each source. */
  method Sort(texts: File -> Text, sources: seq<File>) returns (order: seq<File>)
    ensures Sorted(Needs(texts, sources), sources, order)
  {
    var owner, uses := ReadSources(texts, sources);
    var sorter := new Sorter(uses, owner);
    ghost var E := Needs(texts, sources);
    TablesAgree(texts, sources, sorter);
    for n := 0 to |sources|
      invariant sorter.uses == uses && sorter.Valid() && sorter.Edges() == E && Visitors(sorter.state) == {}
      invariant DoneWithin(E, sources, n, sorter.order)
      invariant EarlySourcesFirst(E, sources, sorter.order) && SourceEndsBlock(E, sources, sorter.order)
    {
      ghost var before := sorter.order;
      sorter.Visit(sources[n]);
      assert sources[n] !in Visitors(sorter.state);
      BlockDone(E, sources, n, sorter.state, before, sorter.order);
      BlockOrdered(E, sources, n, before, sorter.order);
    }
    order := sorter.order;
    Finished(E, uses, sources, sorter.state, order);
  }

  lemma TablesAgree(texts: File -> Text, sources: seq<File>, sorter: Sorter)
    requires Owns(texts, sources, sorter.owner) && Lists(texts, sources, sorter.uses)
    ensures sorter.Edges() == Needs(texts, sources)
    ensures forall m :: m in sorter.owner ==> sorter.owner[m] in sorter.uses
  {
    forall m | m in sorter.owner ensures sorter.owner[m] in sources {
      OwnerDefines(texts, sources, m);
    }
    forall f, g | (f, g) in Needs(texts, sources) ensures (f, g) in sorter.Edges() {
      var m :| m in texts(f).uses && OwnerOf(texts, sources, m) == Some(g);
      assert m in sorter.owner && sorter.owner[m] == g;
    }
  }

  lemma Finished(E: set<(File, File)>, uses: map<File, seq<Module>>, sources: seq<File>, state: map<File, Mark>,
                 order: seq<File>)
    requires Keeps(E, state, order) && DoneWithin(E, sources, |sources|, order)
    requires state.Keys <= uses.Keys && forall f :: f in uses <==> f in sources
    ensures OnlyCyclesBroken(E, order) && forall f :: f in order <==> f in sources
  {
    forall f | f in sources ensures f in order {
      var k :| 0 <= k < |sources| && sources[k] == f;
      ReachRefl(E, f);
      assert Within(E, sources, |sources|, f);
    }
    forall i, j | 0 <= i < j < |order| && (order[i], order[j]) in E ensures Reach(E, order[j], order[i]) {
      assert Settled(E, state, order, i, order[j]);
    }
  }

  /** Without cycles, every file follows the files it needs. */
  lemma AcyclicMeansNeedsFirst(E: set<(File, File)>, sources: seq<File>, order: seq<File>)
    requires Sorted(E, sources, order) && Acyclic(E)
    ensures forall i, j :: 0 <= i < |order| && 0 <= j < |order| && (order[i], order[j]) in E ==> j < i
  {
    forall i, j | 0 <= i < |order| && 0 <= j < |order| && (order[i], order[j]) in E ensures j < i {
      assert !ReachPlus(E, order[i], order[i]);
      if i == j {
        ReachEdge(E, order[i], order[i]);
      }
    }
  }

  /** A file no other file needs is reached by itself only. */
  lemma NotEarlier(E: set<(File, File)>, sources: seq<File>, k: nat)
    requires k < |sources| && sources[k] !in sources[..k] && forall e :: e in E ==> e.1 != sources[k]
    ensures Within(E, sources, k + 1, sources[k]) && !Within(E, sources, k, sources[k])
  {
    var f := sources[k];
    ReachRefl(E, f);
    forall i | 0 <= i < k ensures !Reach(E, sources[i], f) {
      assert sources[i] == sources[..k][i];
      if Reach(E, sources[i], f) {
        OnlyItself(E, sources[i], f);
      }
    }
  }

  /** Before it stand exactly the files that the sources listed up to it reach. */
  lemma BeforeUnneeded(E: set<(File, File)>, sources: seq<File>, order: seq<File>, k: nat, i: nat, j: nat)
    requires Sorted(E, sources, order) && k < |sources| && sources[k] !in sources[..k]
    requires forall e :: e in E ==> e.1 != sources[k]
    requires i < |order| && j < |order| && i != j && order[j] == sources[k]
    ensures i < j <==> Within(E, sources, k + 1, order[i])
  {
    NotEarlier(E, sources, k);
  }

  /** It comes last of all exactly when those sources reach every source. */
  lemma UnneededLast(E: set<(File, File)>, sources: seq<File>, order: seq<File>, k: nat)
    requires Sorted(E, sources, order) && k < |sources| && sources[k] !in sources[..k]
    requires forall e :: e in E ==> e.1 != sources[k]
    ensures order != [] && (order[|order| - 1] == sources[k] <==>
            forall f :: f in sources ==> Within(E, sources, k + 1, f))
  {
    var f, last := sources[k], |order| - 1;
    assert f in sources;
    var i :| 0 <= i < |order| && order[i] == f;
    NotEarlier(E, sources, k);
    if forall g :: g in sources ==> Within(E, sources, k + 1, g) {
      assert order[last] in order;
      if i != last {
        BeforeUnneeded(E, sources, order, k, last, i);
      }
    }
    if order[last] == f {
      forall g | g in sources ensures Within(E, sources, k + 1, g) {
        var j :| 0 <= j < |order| && order[j] == g;
        if g != f {
          BeforeUnneeded(E, sources, order, k, j, last);
        }
      }
    }
  }

  /** What `_topo_order` says of its result: files defining no module sort last. */
  ghost predicate ModulesFirst(texts: File -> Text, order: seq<File>) {
    forall i, j :: 0 <= i < |order| && 0 <= j < |order| ==>
      texts(order[i]).modules != [] && texts(order[j]).modules == [] ==> i < j
  }

  /** Each file with modules is in reach of the sources up to the first listing of any file without. */
  ghost predicate ModulesReached(texts: File -> Text, sources: seq<File>) {
    forall k :: 0 <= k < |sources| && sources[k] !in sources[..k] && texts(sources[k]).modules == [] ==>
      ReachesModules(texts, sources, k)
  }

  ghost predicate ReachesModules(texts: File -> Text, sources: seq<File>, k: nat) {
    forall g :: g in sources && texts(g).modules != [] ==> Within(Needs(texts, sources), sources, k + 1, g)
  }

  lemma NoModulesUnneeded(texts: File -> Text, sources: seq<File>, f: File)
    requires texts(f).modules == []
    ensures forall e :: e in Needs(texts, sources) ==> e.1 != f
  {
    forall e | e in Needs(texts, sources) ensures e.1 != f {
      var m :| m in texts(e.0).uses && OwnerOf(texts, sources, m) == Some(e.1);
      OwnerDefines(texts, sources, m);
    }
  }

  lemma {:induction false} FirstListing(sources: seq<File>, f: File) returns (k: nat)
    requires f in sources
    ensures k < |sources| && sources[k] == f && f !in sources[..k]
    decreases |sources|
  {
    var n := |sources| - 1;
    assert sources == sources[..n] + [sources[n]];
    if f in sources[..n] {
      k := FirstListing(sources[..n], f);
      assert sources[..n][..k] == sources[..k];
    } else {
      k := n;
    }
  }

  /** The exact condition for the order to do so. */
  lemma ModulesFirstIff(texts: File -> Text, sources: seq<File>, order: seq<File>)
    requires Sorted(Needs(texts, sources), sources, order)
    ensures ModulesFirst(texts, order) <==> ModulesReached(texts, sources)
  {
    var E := Needs(texts, sources);
    if ModulesFirst(texts, order) {
      forall k | 0 <= k < |sources| && sources[k] !in sources[..k] && texts(sources[k]).modules == []
        ensures ReachesModules(texts, sources, k)
      {
        NoModulesUnneeded(texts, sources, sources[k]);
        assert sources[k] in sources;
        var j :| 0 <= j < |order| && order[j] == sources[k];
        forall g | g in sources && texts(g).modules != [] ensures Within(E, sources, k + 1, g) {
          var i :| 0 <= i < |order| && order[i] == g;
          BeforeUnneeded(E, sources, order, k, i, j);
        }
      }
    }
    if ModulesReached(texts, sources) {
      forall i, j | 0 <= i < |order| && 0 <= j < |order| && texts(order[i]).modules != []
                    && texts(order[j]).modules == []
        ensures i < j
      {
        assert order[i] in order && order[j] in order;
        var k := FirstListing(sources, order[j]);
        NoModulesUnneeded(texts, sources, order[j]);
        assert ReachesModules(texts, sources, k);
        BeforeUnneeded(E, sources, order, k, i, j);
      }
    }
  }

  lemma OnlyItself(E: set<(File, File)>, g: File, f: File)
    requires Reach(E, g, f) && forall e :: e in E ==> e.1 != f
    ensures g == f
  {
    ReachCases(E, g, f);
    if g != f {
      LastEdge(E, g, f, {g} + set e | e in E :: e.1);
    }
  }

  /** Two files that use nothing, the program before a module: the program comes first. */
  lemma ProgramNotLast(order: seq<File>)
    requires Sorted({}, ["main", "lib"], order)
    ensures order != [] && order[|order| - 1] == "lib"
  {
    var sources := ["main", "lib"];
    UnneededLast({}, sources, order, 0);
    assert sources[1] in sources;
    if i :| 0 <= i < 1 && i < |sources| && Reach({}, sources[i], "lib") {
      OnlyItself({}, "main", "lib");
    }
    assert order[|order| - 1] in order;
  }

  // ---------------------------------------------------------------- `_select_use_closure`

  datatype CompileEntry = CompileEntry(src: File, includes: seq<string>, defines: seq<string>)

  function FilesOf(parsed: seq<CompileEntry>): (r: seq<File>)
    ensures |r| == |parsed| && forall i :: 0 <= i < |r| ==> r[i] == parsed[i].src
  {
    seq(|parsed|, i requires 0 <= i < |parsed| => parsed[i].src)
  }

  /** The entries of the files in `needed`, in build order. */
  ghost function Kept(parsed: seq<CompileEntry>, needed: set<File>): seq<CompileEntry>
    decreases |parsed|
  {
    if parsed == [] then []
    else var n := |parsed| - 1;
      Kept(parsed[..n], needed) + if parsed[n].src in needed then [parsed[n]] else []
  }

  /** The files the root reaches through what each one uses. */
  ghost function Closure(texts: File -> Text, sources: seq<File>, root: File): set<File> {
    set f | f in sources && Reach(PullEdges(texts, sources), root, f)
  }

  /** The entries in reach of the root module's file; all of them when no file defines it. */
  ghost function Selected(texts: File -> Text, parsed: seq<CompileEntry>, root: Module): seq<CompileEntry> {
    var owner := OwnerOf(texts, FilesOf(parsed), root);
    if owner.Some? then Kept(parsed, Closure(texts, FilesOf(parsed), owner.value)) else parsed
  }

  method SelectUseClosure(texts: File -> Text, parsed: seq<CompileEntry>, root: Module)
    returns (kept: seq<CompileEntry>)
    ensures kept == Selected(texts, parsed, root)
  {
    var sources := FilesOf(parsed);
    var owner, uses := ReadSources(texts, sources);
    if root !in owner {
      return parsed;
    }
    OwnerDefines(texts, sources, root);
    var needed := Collect(texts, sources, owner, uses, owner[root]);
    kept := KeepEntries(parsed, needed);
  }

  /** The worklist. */
  method Collect(ghost texts: File -> Text, ghost sources: seq<File>, owner: map<Module, File>,
                 uses: map<File, seq<Module>>, root: File)
    returns (needed: set<File>)
    requires Owns(texts, sources, owner) && Lists(texts, sources, uses) && root in sources
    ensures needed == Closure(texts, sources, root)
  {
    ReachRefl(PullEdges(texts, sources), root);
    var stack := [root];
    needed := {};
    while stack != []
      invariant Working(texts, sources, root, needed, stack)
      decreases |uses.Keys - needed|, |stack|
    {
      var s := stack[|stack| - 1];
      PopWorks(texts, sources, root, needed, stack);
      stack := stack[..|stack| - 1];
      if s !in needed {
        ProperSubsetSmaller(uses.Keys - (needed + {s}), uses.Keys - needed);
        ghost var rest := stack;
        stack := PushOwners(texts, sources, owner, s, uses[s], stack);
        TakeWorks(texts, sources, root, needed, s, rest, stack);
        needed := needed + {s};
      }
    }
    ClosedIsAll(texts, sources, root, needed);
  }

  /** What is taken or waiting is in reach, and nothing that a taken file pulls in is forgotten. */
  ghost predicate Working(texts: File -> Text, sources: seq<File>, root: File, needed: set<File>, stack: seq<File>) {
    && needed <= Closure(texts, sources, root) && (forall f :: f in stack ==> f in Closure(texts, sources, root))
    && (root in needed || root in stack)
    && (forall e :: e in PullEdges(texts, sources) && e.0 in needed ==> e.1 in needed || e.1 in stack)
  }

  lemma PopWorks(texts: File -> Text, sources: seq<File>, root: File, needed: set<File>, stack: seq<File>)
    requires stack != [] && Working(texts, sources, root, needed, stack)
    ensures var s, rest := stack[|stack| - 1], stack[..|stack| - 1];
            && s in sources && Working(texts, sources, root, needed, rest + [s])
            && (s in needed ==> Working(texts, sources, root, needed, rest))
  {
    assert stack == stack[..|stack| - 1] + [stack[|stack| - 1]];
    assert stack[|stack| - 1] in stack;
  }

  lemma TakeWorks(texts: File -> Text, sources: seq<File>, root: File, needed: set<File>, s: File, rest: seq<File>,
                  stack: seq<File>)
    requires Working(texts, sources, root, needed, rest + [s])
    requires forall f :: f in stack <==> f in rest || (s, f) in PullEdges(texts, sources)
    ensures Working(texts, sources, root, needed + {s}, stack)
  {
    assert s in rest + [s];
    forall f | f in stack ensures f in Closure(texts, sources, root) {
      if (s, f) in PullEdges(texts, sources) {
        ReachThenEdge(PullEdges(texts, sources), root, s, f);
      } else {
        assert f in rest + [s];
      }
    }
    assert forall f :: f in rest + [s] ==> f == s || f in stack;
    forall e | e in PullEdges(texts, sources) && e.0 in needed + {s} ensures e.1 in needed + {s} || e.1 in stack {
      assert e == (e.0, e.1);
    }
  }

  lemma ClosedIsAll(texts: File -> Text, sources: seq<File>, root: File, needed: set<File>)
    requires root in needed && needed <= Closure(texts, sources, root)
    requires forall e :: e in PullEdges(texts, sources) && e.0 in needed ==> e.1 in needed
    ensures needed == Closure(texts, sources, root)
  {
    forall f | f in Closure(texts, sources, root) ensures f in needed {
      var p :| Walk(PullEdges(texts, sources), root, p, f);
      WalkInClosed(PullEdges(texts, sources), needed, root, p, f);
    }
  }

  /** The loop that pushes the owners of what one file uses. */
  method PushOwners(ghost texts: File -> Text, ghost sources: seq<File>, owner: map<Module, File>, s: File,
                    uses: seq<Module>, stack: seq<File>)
    returns (stack': seq<File>)
    requires s in sources && uses == texts(s).uses && Owns(texts, sources, owner)
    ensures forall f :: f in stack' <==> f in stack || (s, f) in PullEdges(texts, sources)
  {
    stack' := stack;
    for k := 0 to |uses|
      invariant forall f :: f in stack' <==>
                f in stack || exists n :: 0 <= n < k && OwnerOf(texts, sources, uses[n]) == Some(f)
    {
      if uses[k] in owner {
        stack' := stack' + [owner[uses[k]]];
      }
    }
    forall m ensures OwnerOf(texts, sources, m).Some? ==> OwnerOf(texts, sources, m).value in sources {
      OwnerDefines(texts, sources, m);
    }
  }

  method KeepEntries(parsed: seq<CompileEntry>, needed: set<File>) returns (kept: seq<CompileEntry>)
    ensures kept == Kept(parsed, needed)
  {
    kept := [];
    for n := 0 to |parsed|
      invariant kept == Kept(parsed[..n], needed)
    {
      assert parsed[..n + 1][..n] == parsed[..n];
      if parsed[n].src in needed {
        kept := kept + [parsed[n]];
      }
    }
    assert parsed[..|parsed|] == parsed;
  }

  // ---------------------------------------------------------------- selecting from a selection

  lemma {:induction false} KeptAgain(parsed: seq<CompileEntry>, needed: set<File>)
    requires forall t :: t in parsed ==> t.src in needed
    ensures Kept(parsed, needed) == parsed
    decreases |parsed|
  {
    if parsed != [] {
      var n := |parsed| - 1;
      assert parsed == parsed[..n] + [parsed[n]];
      KeptAgain(parsed[..n], needed);
    }
  }

  lemma {:induction false} KeptEntries(parsed: seq<CompileEntry>, needed: set<File>, t: CompileEntry)
    ensures t in Kept(parsed, needed) <==> t in parsed && t.src in needed
    decreases |parsed|
  {
    if parsed != [] {
      var n := |parsed| - 1;
      assert parsed == parsed[..n] + [parsed[n]];
      KeptEntries(parsed[..n], needed, t);
    }
  }

  lemma KeptFiles(parsed: seq<CompileEntry>, needed: set<File>, f: File)
    ensures f in FilesOf(Kept(parsed, needed)) <==> f in FilesOf(parsed) && f in needed
  {
    forall t ensures t in Kept(parsed, needed) <==> t in parsed && t.src in needed {
      KeptEntries(parsed, needed, t);
    }
  }

  /** A module owned by a kept file keeps its owner. */
  lemma {:induction false} OwnerKept(texts: File -> Text, parsed: seq<CompileEntry>, needed: set<File>, m: Module)
    requires var owner := OwnerOf(texts, FilesOf(parsed), m); owner.Some? && owner.value in needed
    ensures OwnerOf(texts, FilesOf(Kept(parsed, needed)), m) == OwnerOf(texts, FilesOf(parsed), m)
    decreases |parsed|
  {
    assert FilesOf(parsed) != [];
    var n := |parsed| - 1;
    var t, rest := parsed[n], parsed[..n];
    assert parsed == rest + [t];
    NextEntry(texts, rest, t, m);
    KeptNext(rest, t, needed);
    if t.src in needed {
      NextEntry(texts, Kept(rest, needed), t, m);
    }
    if m !in texts(t.src).modules {
      OwnerKept(texts, rest, needed, m);
    }
  }

  lemma NextEntry(texts: File -> Text, rest: seq<CompileEntry>, t: CompileEntry, m: Module)
    ensures OwnerOf(texts, FilesOf(rest + [t]), m) ==
            if m in texts(t.src).modules then Some(t.src) else OwnerOf(texts, FilesOf(rest), m)
  {
    assert FilesOf(rest + [t]) == FilesOf(rest) + [t.src];
  }

  lemma KeptNext(rest: seq<CompileEntry>, t: CompileEntry, needed: set<File>)
    ensures Kept(rest + [t], needed) == if t.src in needed then Kept(rest, needed) + [t] else Kept(rest, needed)
  {
    assert (rest + [t])[..|rest|] == rest;
  }

  /** What a kept file pulls in, it pulled in before, and the other way round. */
  lemma PullsKept(texts: File -> Text, parsed: seq<CompileEntry>, needed: set<File>, f: File, g: File)
    requires forall e :: e in PullEdges(texts, FilesOf(parsed)) && e.0 in needed ==> e.1 in needed
    ensures (f, g) in PullEdges(texts, FilesOf(Kept(parsed, needed))) <==>
            (f, g) in PullEdges(texts, FilesOf(parsed)) && f in needed
  {
    var all, some := FilesOf(parsed), FilesOf(Kept(parsed, needed));
    KeptFiles(parsed, needed, f);
    KeptFiles(parsed, needed, g);
    if f in some {
      forall m | m in texts(f).uses ensures OwnerOf(texts, some, m) == OwnerOf(texts, all, m) {
        UseKept(texts, parsed, needed, f, m);
      }
    }
  }

  lemma UseKept(texts: File -> Text, parsed: seq<CompileEntry>, needed: set<File>, f: File, m: Module)
    requires forall e :: e in PullEdges(texts, FilesOf(parsed)) && e.0 in needed ==> e.1 in needed
    requires f in FilesOf(Kept(parsed, needed)) && m in texts(f).uses
    ensures OwnerOf(texts, FilesOf(Kept(parsed, needed)), m) == OwnerOf(texts, FilesOf(parsed), m)
  {
    var all, some := FilesOf(parsed), FilesOf(Kept(parsed, needed));
    KeptFiles(parsed, needed, f);
    OwnerDefines(texts, all, m);
    OwnerDefines(texts, some, m);
    if OwnerOf(texts, all, m).Some? {
      assert (f, OwnerOf(texts, all, m).value) in PullEdges(texts, all);
      OwnerKept(texts, parsed, needed, m);
    } else if OwnerOf(texts, some, m).Some? {
      KeptFiles(parsed, needed, OwnerOf(texts, some, m).value);
    }
  }

  lemma ClosureClosed(texts: File -> Text, sources: seq<File>, root: File)
    ensures forall e :: e in PullEdges(texts, sources) && e.0 in Closure(texts, sources, root) ==>
            e.1 in Closure(texts, sources, root)
  {
    var E := PullEdges(texts, sources);
    forall e | e in E && e.0 in Closure(texts, sources, root) ensures e.1 in Closure(texts, sources, root) {
      ReachThenEdge(E, root, e.0, e.1);
    }
  }

  /** Selecting from what was selected changes nothing: the selection holds all that it uses. */
  lemma SelectAgain(texts: File -> Text, parsed: seq<CompileEntry>, root: Module)
    ensures Selected(texts, Selected(texts, parsed, root), root) == Selected(texts, parsed, root)
  {
    var all := FilesOf(parsed);
    if OwnerOf(texts, all, root).Some? {
      var r := OwnerOf(texts, all, root).value;
      var needed := Closure(texts, all, r);
      var kept := Kept(parsed, needed);
      OwnerDefines(texts, all, root);
      ReachRefl(PullEdges(texts, all), r);
      OwnerKept(texts, parsed, needed, root);
      ClosureKept(texts, parsed, r);
      forall t | t in kept ensures t.src in needed {
        KeptEntries(parsed, needed, t);
      }
      KeptAgain(kept, Closure(texts, FilesOf(kept), r));
    }
  }

  lemma ClosureKept(texts: File -> Text, parsed: seq<CompileEntry>, root: File)
    requires root in FilesOf(parsed)
    ensures var needed := Closure(texts, FilesOf(parsed), root);
            needed <= Closure(texts, FilesOf(Kept(parsed, needed)), root)
  {
    var all := FilesOf(parsed);
    var needed := Closure(texts, all, root);
    var E, F := PullEdges(texts, all), PullEdges(texts, FilesOf(Kept(parsed, needed)));
    ClosureClosed(texts, all, root);
    ReachRefl(E, root);
    forall f, g ensures (f, g) in F <==> (f, g) in E && f in needed {
      PullsKept(texts, parsed, needed, f, g);
    }
    forall f | f in needed ensures f in Closure(texts, FilesOf(Kept(parsed, needed)), root) {
      var p :| Walk(E, root, p, f);
      WalkStays(E, F, needed, root, p, f);
      KeptFiles(parsed, needed, f);
    }
  }

  lemma {:induction false} WalkStays(E: set<(File, File)>, F: set<(File, File)>, S: set<File>, u: File, p: seq<File>,
                                     v: File)
    requires u in S && Walk(E, u, p, v) && forall f, g :: (f, g) in F <==> (f, g) in E && f in S
    requires forall e :: e in E && e.0 in S ==> e.1 in S
    ensures Walk(F, u, p, v)
    decreases |p|
  {
    if p != [] {
      WalkStays(E, F, S, p[0], p[1..], v);
    }
  }
}
