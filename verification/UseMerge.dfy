/** Resolving USE statements transitively: an explicit-stack post-order walk lists the modules to splice in, each after
    the modules it uses.  The walk keeps no "visiting" mark, so it ends exactly when no USE cycle is in reach. */
module UseMerge {
  import opened Digraph

  type Module = string

  /** The indexed modules, each with the modules it uses. */
  type Index = map<Module, seq<Module>>

  // ---------------------------------------------------------------- `_used_modules`

  /** A source line: a USE of a module, or anything else. */
  datatype Line = Use(name: Module) | Other

  predicate Counts(intrinsic: set<Module>, resolve: set<Module>, line: Line) {
    line.Use? && (line.name !in intrinsic || line.name in resolve)
  }

  /** The used modules in order of first use. */
  method UsedModules(lines: seq<Line>, intrinsic: set<Module>, resolve: set<Module>) returns (out: seq<Module>)
    ensures forall m :: m in out <==> Use(m) in lines && (m in intrinsic ==> m in resolve)
    ensures forall i, j :: 0 <= i < j < |out| ==> out[i] != out[j]
    ensures exists at: seq<int> :: FirstUses(lines, intrinsic, resolve, out, at)
  {
    var seen := {};
    out := [];
    ghost var at: seq<int> := [];
    for i := 0 to |lines|
      invariant forall m :: m in seen <==> m in out
      invariant forall m :: m in out <==> UsedBy(lines, i, m) && (m in intrinsic ==> m in resolve)
      invariant forall j, k :: 0 <= j < k < |out| ==> out[j] != out[k]
      invariant FirstUses(lines, intrinsic, resolve, out, at) && forall k :: 0 <= k < |at| ==> at[k] < i
    {
      assert forall m :: UsedBy(lines, i + 1, m) <==> UsedBy(lines, i, m) || lines[i] == Use(m);
      if Counts(intrinsic, resolve, lines[i]) && lines[i].name !in seen {
        seen := seen + {lines[i].name};
        out := out + [lines[i].name];
        at := at + [i];
      }
    }
    assert forall m :: UsedBy(lines, |lines|, m) <==> Use(m) in lines;
  }

  ghost predicate UsedBy(lines: seq<Line>, n: nat, m: Module)
    requires n <= |lines|
  {
    exists j :: 0 <= j < n && lines[j] == Use(m)
  }

  /** The line uses the module, which is not intrinsic, or is to be resolved all the same. */
  ghost predicate UsesHere(intrinsic: set<Module>, resolve: set<Module>, line: Line, m: Module) {
    line == Use(m) && (m in intrinsic ==> m in resolve)
  }

  /** `at` gives where each name is used first, in increasing order. */
  ghost predicate FirstUses(lines: seq<Line>, intrinsic: set<Module>, resolve: set<Module>, out: seq<Module>,
                            at: seq<int>) {
    && |at| == |out| && (forall j, k :: 0 <= j < k < |at| ==> at[j] < at[k])
    && (forall k :: 0 <= k < |at| ==> 0 <= at[k] < |lines| && UsesHere(intrinsic, resolve, lines[at[k]], out[k]))
    && (forall j, k :: 0 <= k < |at| && 0 <= j < at[k] ==> !UsesHere(intrinsic, resolve, lines[j], out[k]))
  }

  // ---------------------------------------------------------------- the walk

  datatype Entry = Entry(name: Module, expanded: bool)

  datatype Walk = Walk(stack: seq<Entry>, placed: set<Module>, order: seq<Module>)

  /** What a module's expansion pushes: its uses still to do, the first on top. */
  function Pushed(index: Index, placed: set<Module>, uses: seq<Module>): (r: seq<Entry>)
    ensures forall e :: e in r <==> !e.expanded && e.name in uses && e.name !in placed && e.name in index
  {
    if uses == [] then []
    else Pushed(index, placed, uses[1..]) +
         if uses[0] !in placed && uses[0] in index then [Entry(uses[0], false)] else []
  }

  function Step(index: Index, w: Walk): Walk
    requires w.stack != []
  {
    var top, rest := w.stack[|w.stack| - 1], w.stack[..|w.stack| - 1];
    if top.name in w.placed || top.name !in index then w.(stack := rest)
    else if top.expanded then Walk(rest, w.placed + {top.name}, w.order + [top.name])
    else w.(stack := rest + [Entry(top.name, true)] + Pushed(index, w.placed, index[top.name]))
  }

  function Initial(roots: seq<Module>, inSource: set<Module>): Walk {
    Walk(seq(|roots|, i requires 0 <= i < |roots| => Entry(roots[|roots| - 1 - i], false)), inSource, [])
  }

  /** The USE edges between indexed modules. */
  ghost function Uses(index: Index): set<(Module, Module)> {
    set m, d | m in index && d in index[m] && d in index :: (m, d)
  }

  /** The indexed modules the source uses, directly or not. */
  ghost predicate Wanted(index: Index, roots: seq<Module>, m: Module) {
    m in index && exists r :: r in roots && r in index && Reach(Uses(index), r, m)
  }

  // ---------------------------------------------------------------- what every step keeps

  /** Each module listed comes after the indexed modules it uses. */
  ghost predicate DepsFirst(index: Index, order: seq<Module>) {
    forall i, d :: 0 <= i < |order| && order[i] in index && d in index[order[i]] && d in index ==> d in order[..i]
  }

  /** The modules placed so far: those of the source, and those listed. */
  ghost predicate ListOk(index: Index, roots: seq<Module>, inSource: set<Module>, w: Walk) {
    && (forall m :: m in w.placed <==> m in inSource || m in w.order)
    && (forall i, j :: 0 <= i < j < |w.order| ==> w.order[i] != w.order[j])
    && (forall m :: m in w.order ==> Wanted(index, roots, m))
    && DepsFirst(index, w.order)
  }

  /** The stack holds only what is wanted, and no root is forgotten. */
  ghost predicate StackOk(index: Index, roots: seq<Module>, w: Walk) {
    && (forall e :: e in w.stack && e.name in index ==> Wanted(index, roots, e.name))
    && (forall r :: r in roots && r in index ==> r in w.placed || OnStack(w.stack, r))
  }

  ghost predicate OnStack(stack: seq<Entry>, m: Module) {
    exists k :: 0 <= k < |stack| && stack[k].name == m
  }

  /** An expanded module: each of its uses is placed, or on the stack above it. */
  ghost predicate Pending(index: Index, w: Walk, j: nat)
    requires j < |w.stack|
  {
    w.stack[j].name in index &&
    forall d :: d in index[w.stack[j].name] && d in index ==> d in w.placed || Above(w.stack, j, d)
  }

  ghost predicate Above(stack: seq<Entry>, j: nat, d: Module) {
    exists k :: j < k < |stack| && stack[k].name == d
  }

  ghost predicate AllPending(index: Index, w: Walk) {
    forall j :: 0 <= j < |w.stack| && w.stack[j].expanded ==> Pending(index, w, j)
  }

  /** An expanded module leads to everything above it. */
  ghost predicate Leads(index: Index, stack: seq<Entry>) {
    forall i, j :: 0 <= i < j < |stack| && stack[i].expanded && stack[j].name in index ==>
      ReachPlus(Uses(index), stack[i].name, stack[j].name)
  }

  ghost predicate Keeps(index: Index, roots: seq<Module>, inSource: set<Module>, w: Walk) {
    ListOk(index, roots, inSource, w) && StackOk(index, roots, w) && AllPending(index, w) && Leads(index, w.stack)
  }

  lemma InitialKeeps(index: Index, roots: seq<Module>, inSource: set<Module>)
    ensures Keeps(index, roots, inSource, Initial(roots, inSource))
  {
    var w := Initial(roots, inSource);
    forall e | e in w.stack && e.name in index ensures Wanted(index, roots, e.name) {
      ReachRefl(Uses(index), e.name);
    }
    forall r | r in roots && r in index ensures OnStack(w.stack, r) {
      var i :| 0 <= i < |roots| && roots[i] == r;
      assert w.stack[|roots| - 1 - i].name == r;
    }
  }

  /** Popping an entry whose module is placed, or not indexed. */
  lemma PopKeeps(index: Index, roots: seq<Module>, w: Walk, placed: set<Module>, order: seq<Module>)
    requires w.stack != [] && w.placed <= placed
    requires var top := w.stack[|w.stack| - 1]; top.name in index ==> top.name in placed
    requires StackOk(index, roots, w) && AllPending(index, w) && Leads(index, w.stack)
    ensures var w' := Walk(w.stack[..|w.stack| - 1], placed, order);
            StackOk(index, roots, w') && AllPending(index, w') && Leads(index, w'.stack)
  {
    var n := |w.stack| - 1;
    var rest := w.stack[..n];
    var w' := Walk(rest, placed, order);
    forall r | r in roots && r in index && r !in placed ensures OnStack(rest, r) {
      var k :| 0 <= k < |w.stack| && w.stack[k].name == r;
      assert rest[k].name == r;
    }
    forall j | 0 <= j < |rest| && rest[j].expanded ensures Pending(index, w', j) {
      assert Pending(index, w, j);
      forall d | d in index[rest[j].name] && d in index && d !in placed ensures Above(rest, j, d) {
        var k :| j < k < |w.stack| && w.stack[k].name == d;
        assert rest[k].name == d;
      }
    }
  }

  lemma PlaceKeeps(index: Index, roots: seq<Module>, inSource: set<Module>, w: Walk)
    requires Keeps(index, roots, inSource, w) && index.Keys !! inSource && w.stack != []
    requires var top := w.stack[|w.stack| - 1]; top.expanded && top.name in index && top.name !in w.placed
    ensures Keeps(index, roots, inSource, Step(index, w))
  {
    var n := |w.stack| - 1;
    var m := w.stack[n].name;
    PopKeeps(index, roots, w, w.placed + {m}, w.order + [m]);
    assert Pending(index, w, n);
    assert w.stack[n] in w.stack;
    var order := w.order + [m];
    forall i, d | 0 <= i < |order| && order[i] in index && d in index[order[i]] && d in index ensures d in order[..i] {
      if i < |w.order| {
        assert order[..i] == w.order[..i];
      } else {
        assert order[..i] == w.order;
      }
    }
  }

  lemma ExpandKeeps(index: Index, roots: seq<Module>, inSource: set<Module>, w: Walk)
    requires Keeps(index, roots, inSource, w) && w.stack != []
    requires var top := w.stack[|w.stack| - 1]; !top.expanded && top.name in index && top.name !in w.placed
    ensures Keeps(index, roots, inSource, Step(index, w))
  {
    var n := |w.stack| - 1;
    var m := w.stack[n].name;
    var pushed := Pushed(index, w.placed, index[m]);
    assert Step(index, w).stack == w.stack[..n] + [Entry(m, true)] + pushed;
    assert w.stack[n] in w.stack && Wanted(index, roots, m);
    ExpandStack(index, roots, w, pushed);
    ExpandPending(index, w, pushed);
    ExpandLeads(index, w.stack, pushed);
  }

  lemma ExpandStack(index: Index, roots: seq<Module>, w: Walk, pushed: seq<Entry>)
    requires StackOk(index, roots, w) && w.stack != []
    requires var m := w.stack[|w.stack| - 1].name;
             Wanted(index, roots, m) && m !in w.placed && pushed == Pushed(index, w.placed, index[m])
    ensures var n := |w.stack| - 1;
            StackOk(index, roots, w.(stack := w.stack[..n] + [Entry(w.stack[n].name, true)] + pushed))
  {
    var n, E := |w.stack| - 1, Uses(index);
    var m := w.stack[n].name;
    var rest := w.stack[..n];
    var w' := w.(stack := rest + [Entry(m, true)] + pushed);
    forall e | e in w'.stack && e.name in index ensures Wanted(index, roots, e.name) {
      if e in pushed {
        assert (m, e.name) in E;
        var r :| r in roots && r in index && Reach(E, r, m);
        ReachThenEdge(E, r, m, e.name);
      } else if e in rest {
        assert e in w.stack;
      }
    }
    forall r | r in roots && r in index && r !in w.placed ensures OnStack(w'.stack, r) {
      var k :| 0 <= k < |w.stack| && w.stack[k].name == r;
      assert w'.stack[k].name == r;
    }
  }

  lemma ExpandPending(index: Index, w: Walk, pushed: seq<Entry>)
    requires AllPending(index, w) && w.stack != []
    requires var top := w.stack[|w.stack| - 1]; top.name in index && pushed == Pushed(index, w.placed, index[top.name])
    ensures var n := |w.stack| - 1;
            AllPending(index, w.(stack := w.stack[..n] + [Entry(w.stack[n].name, true)] + pushed))
  {
    var n := |w.stack| - 1;
    var m := w.stack[n].name;
    var w' := w.(stack := w.stack[..n] + [Entry(m, true)] + pushed);
    forall j | 0 <= j <= n && w'.stack[j].expanded ensures Pending(index, w', j) {
      if j < n {
        assert w'.stack[j] == w.stack[j] && Pending(index, w, j);
        forall d | d in index[w.stack[j].name] && d in index && d !in w.placed ensures Above(w'.stack, j, d) {
          var k :| j < k < |w.stack| && w.stack[k].name == d;
          assert w'.stack[k].name == d;
        }
      } else {
        forall d | d in index[m] && d in index && d !in w.placed ensures Above(w'.stack, j, d) {
          assert Entry(d, false) in pushed;
          var k :| 0 <= k < |pushed| && pushed[k] == Entry(d, false);
          assert w'.stack[n + 1 + k].name == d;
        }
      }
    }
  }

  lemma ExpandLeads(index: Index, stack: seq<Entry>, pushed: seq<Entry>)
    requires stack != [] && Leads(index, stack) && stack[|stack| - 1].name in index
    requires forall e :: e in pushed ==> !e.expanded && e.name in index && e.name in index[stack[|stack| - 1].name]
    ensures Leads(index, stack[..|stack| - 1] + [Entry(stack[|stack| - 1].name, true)] + pushed)
  {
    var n, E := |stack| - 1, Uses(index);
    var m := stack[n].name;
    var stack' := stack[..n] + [Entry(m, true)] + pushed;
    forall i, j | 0 <= i <= n && i < j < |stack'| && stack'[i].expanded && stack'[j].name in index
      ensures ReachPlus(E, stack'[i].name, stack'[j].name)
    {
      if j <= n {
        assert stack'[i] == stack[i] && stack'[j].name == stack[j].name;
      } else {
        var d := stack'[j].name;
        assert stack'[j] in pushed;
        assert (m, d) in E;
        ReachEdge(E, m, d);
        if i < n {
          assert stack'[i] == stack[i];
          ReachPlusThen(E, stack[i].name, m, d);
        }
      }
    }
  }

  /** Every step keeps the invariant, cycles or not. */
  lemma StepKeeps(index: Index, roots: seq<Module>, inSource: set<Module>, w: Walk)
    requires Keeps(index, roots, inSource, w) && index.Keys !! inSource && w.stack != []
    ensures Keeps(index, roots, inSource, Step(index, w))
  {
    var top := w.stack[|w.stack| - 1];
    if top.name in w.placed || top.name !in index {
      PopKeeps(index, roots, w, w.placed, w.order);
    } else if top.expanded {
      PlaceKeeps(index, roots, inSource, w);
    } else {
      ExpandKeeps(index, roots, inSource, w);
    }
  }

  // ---------------------------------------------------------------- the walk ends

  /** No USE cycle among the modules in reach. */
  ghost predicate NoCycle(index: Index, roots: seq<Module>) {
    forall m :: Wanted(index, roots, m) ==> !ReachPlus(Uses(index), m, m)
  }

  ghost function Open(stack: seq<Entry>): set<Module> {
    set e | e in stack && e.expanded :: e.name
  }

  /** Modules neither placed nor expanded yet. */
  ghost function Fresh(index: Index, w: Walk): set<Module> {
    index.Keys - w.placed - Open(w.stack)
  }

  /** A step on the way to the end: a module expanded for the only time, or a shorter stack. */
  ghost predicate Shrinks(index: Index, w: Walk, w': Walk) {
    || |Fresh(index, w')| < |Fresh(index, w)|
    || (|Fresh(index, w')| == |Fresh(index, w)| && |w'.stack| < |w.stack|)
  }

  /** Without a cycle, no module is expanded under itself. */
  lemma TopNotOpen(index: Index, roots: seq<Module>, w: Walk)
    requires StackOk(index, roots, w) && Leads(index, w.stack) && NoCycle(index, roots) && w.stack != []
    requires var top := w.stack[|w.stack| - 1]; !top.expanded && top.name in index
    ensures w.stack[|w.stack| - 1].name !in Open(w.stack)
  {
    var n := |w.stack| - 1;
    assert w.stack[n] in w.stack && Wanted(index, roots, w.stack[n].name);
    forall i | 0 <= i < |w.stack| && w.stack[i].expanded ensures w.stack[i].name != w.stack[n].name {
      assert ReachPlus(Uses(index), w.stack[i].name, w.stack[n].name);
    }
  }

  lemma OpenExpanded(rest: seq<Entry>, m: Module, pushed: seq<Entry>)
    requires forall e :: e in pushed ==> !e.expanded
    ensures Open(rest + [Entry(m, true)] + pushed) == Open(rest + [Entry(m, false)]) + {m}
  {
    assert Entry(m, true) in rest + [Entry(m, true)] + pushed;
  }

  lemma ExpandShrinks(index: Index, roots: seq<Module>, w: Walk)
    requires StackOk(index, roots, w) && Leads(index, w.stack) && NoCycle(index, roots) && w.stack != []
    requires var top := w.stack[|w.stack| - 1]; !top.expanded && top.name in index && top.name !in w.placed
    ensures Shrinks(index, w, Step(index, w))
  {
    var n := |w.stack| - 1;
    var m, rest, w' := w.stack[n].name, w.stack[..n], Step(index, w);
    TopNotOpen(index, roots, w);
    assert w.stack == rest + [Entry(m, false)];
    OpenExpanded(rest, m, Pushed(index, w.placed, index[m]));
    assert m in Fresh(index, w) && Fresh(index, w') == Fresh(index, w) - {m};
  }

  lemma OpenPopped(rest: seq<Entry>, top: Entry)
    ensures Open(rest + [top]) == Open(rest) + if top.expanded then {top.name} else {}
  {}

  lemma PopShrinks(index: Index, w: Walk)
    requires w.stack != []
    requires var top := w.stack[|w.stack| - 1]; top.name in w.placed || top.name !in index || top.expanded
    ensures Shrinks(index, w, Step(index, w))
  {
    var n := |w.stack| - 1;
    var top, rest, w' := w.stack[n], w.stack[..n], Step(index, w);
    assert w.stack == rest + [top] && w'.stack == rest;
    OpenPopped(rest, top);
    assert w'.placed == w.placed || w'.placed == w.placed + {top.name};
    forall m | m in index ensures m in w'.placed || m in Open(rest) <==> m in w.placed || m in Open(w.stack) {}
    assert Fresh(index, w') == Fresh(index, w);
  }

  /** Without a cycle, every step expands a module for the only time or shortens the stack. */
  lemma StepShrinks(index: Index, roots: seq<Module>, inSource: set<Module>, w: Walk)
    requires Keeps(index, roots, inSource, w) && NoCycle(index, roots) && w.stack != []
    ensures Shrinks(index, w, Step(index, w))
  {
    var top := w.stack[|w.stack| - 1];
    if top.name in w.placed || top.name !in index || top.expanded {
      PopShrinks(index, w);
    } else {
      ExpandShrinks(index, roots, w);
    }
  }

  ghost function After(index: Index, w: Walk, n: nat): Walk
    decreases n
  {
    if n == 0 || w.stack == [] then w else After(index, Step(index, w), n - 1)
  }

  ghost predicate Finishes(index: Index, w: Walk, n: nat) {
    After(index, w, n).stack == []
  }

  lemma FinishesNext(index: Index, w: Walk, w': Walk, n: nat)
    requires w.stack != [] && w' == Step(index, w) && Finishes(index, w', n)
    ensures Finishes(index, w, n + 1)
  {}

  lemma {:induction false} AfterKeeps(index: Index, roots: seq<Module>, inSource: set<Module>, w: Walk, n: nat)
    requires Keeps(index, roots, inSource, w) && index.Keys !! inSource
    ensures Keeps(index, roots, inSource, After(index, w, n))
    decreases n
  {
    if n > 0 && w.stack != [] {
      StepKeeps(index, roots, inSource, w);
      AfterKeeps(index, roots, inSource, Step(index, w), n - 1);
    }
  }

  lemma Onward(index: Index, roots: seq<Module>, inSource: set<Module>, w: Walk) returns (w': Walk)
    requires Keeps(index, roots, inSource, w) && index.Keys !! inSource && NoCycle(index, roots) && w.stack != []
    ensures Keeps(index, roots, inSource, w') && Shrinks(index, w, w')
    ensures forall n: nat :: Finishes(index, w', n) ==> Finishes(index, w, n + 1)
  {
    w' := Step(index, w);
    StepKeeps(index, roots, inSource, w);
    StepShrinks(index, roots, inSource, w);
    forall n: nat | Finishes(index, w', n) ensures Finishes(index, w, n + 1) {
      FinishesNext(index, w, w', n);
    }
  }

  lemma {:induction false} Ends(index: Index, roots: seq<Module>, inSource: set<Module>, w: Walk) returns (n: nat)
    requires Keeps(index, roots, inSource, w) && index.Keys !! inSource && NoCycle(index, roots)
    ensures Finishes(index, w, n)
    decreases |Fresh(index, w)|, |w.stack|
  {
    n := 0;
    if w.stack != [] {
      var w' := Onward(index, roots, inSource, w);
      n := Ends(index, roots, inSource, w');
      n := n + 1;
    }
  }

  // ---------------------------------------------------------------- what the walk lists

  /** The modules to splice in: all that are wanted and no other, each once, each after those it uses. */
  ghost predicate Listing(index: Index, roots: seq<Module>, order: seq<Module>) {
    && (forall m :: m in order <==> Wanted(index, roots, m))
    && (forall i, j :: 0 <= i < j < |order| ==> order[i] != order[j])
    && DepsFirst(index, order)
  }

  lemma DoneLists(index: Index, roots: seq<Module>, inSource: set<Module>, w: Walk)
    requires Keeps(index, roots, inSource, w) && index.Keys !! inSource && w.stack == []
    ensures Listing(index, roots, w.order)
  {
    var listed := set m | m in w.order;
    forall e | e in Uses(index) && e.0 in listed ensures e.1 in listed {
      var i :| 0 <= i < |w.order| && w.order[i] == e.0;
      assert e.1 in w.order[..i];
    }
    forall m | Wanted(index, roots, m) ensures m in w.order {
      var r :| r in roots && r in index && Reach(Uses(index), r, m);
      assert r in w.placed;
      var p :| Digraph.Walk(Uses(index), r, p, m);
      WalkInClosed(Uses(index), listed, r, p, m);
    }
  }

  /** Along USE edges one moves to the front of a listing. */
  lemma {:induction false} ListedEarlier(index: Index, roots: seq<Module>, order: seq<Module>, i: nat, p: seq<Module>,
                                         m: Module)
    requires Listing(index, roots, order) && i < |order| && Digraph.Walk(Uses(index), order[i], p, m)
    ensures exists j :: 0 <= j <= i && order[j] == m && (p != [] ==> j < i)
    decreases |p|
  {
    if p != [] {
      assert (order[i], p[0]) in Uses(index);
      assert p[0] in order[..i];
      var k :| 0 <= k < i && order[k] == p[0];
      ListedEarlier(index, roots, order, k, p[1..], m);
    }
  }

  lemma ListingHasNoCycle(index: Index, roots: seq<Module>, order: seq<Module>)
    requires Listing(index, roots, order)
    ensures NoCycle(index, roots)
  {
    forall m | Wanted(index, roots, m) ensures !ReachPlus(Uses(index), m, m) {
      if ReachPlus(Uses(index), m, m) {
        var a :| (m, a) in Uses(index) && Reach(Uses(index), a, m);
        var p :| Digraph.Walk(Uses(index), a, p, m);
        var i :| 0 <= i < |order| && order[i] == m;
        assert ([a] + p)[1..] == p;
        ListedEarlier(index, roots, order, i, [a] + p, m);
      }
    }
  }

  /** The loop ends exactly when no cycle is in reach: with one, it runs on for ever, although the source says that a
      cycle's back-edge is dropped. */
  lemma EndsIffNoCycle(index: Index, roots: seq<Module>, inSource: set<Module>)
    requires index.Keys !! inSource
    ensures (exists n :: Finishes(index, Initial(roots, inSource), n)) <==> NoCycle(index, roots)
  {
    InitialKeeps(index, roots, inSource);
    if NoCycle(index, roots) {
      var n := Ends(index, roots, inSource, Initial(roots, inSource));
    }
    if n :| Finishes(index, Initial(roots, inSource), n) {
      AfterKeeps(index, roots, inSource, Initial(roots, inSource), n);
      DoneLists(index, roots, inSource, After(index, Initial(roots, inSource), n));
      ListingHasNoCycle(index, roots, After(index, Initial(roots, inSource), n).order);
    }
  }

  /** Two modules that use each other. */
  lemma MutualUseRunsOn()
    ensures var index: Index := map["a" := ["b"], "b" := ["a"]];
            forall n :: !Finishes(index, Initial(["a"], {}), n)
  {
    var index: Index := map["a" := ["b"], "b" := ["a"]];
    var E := Uses(index);
    assert "b" in index["a"] && "a" in index["b"];
    assert ("a", "b") in E && ("b", "a") in E;
    ReachEdge(E, "b", "a");
    ReachRefl(E, "a");
    assert Wanted(index, ["a"], "a");
    EndsIffNoCycle(index, ["a"], {});
  }

  /** The loop of `merge_used_modules`. */
  method MergeOrder(index: Index, roots: seq<Module>, inSource: set<Module>) returns (order: seq<Module>)
    requires index.Keys !! inSource && NoCycle(index, roots)
    ensures Listing(index, roots, order)
  {
    var placed := inSource;
    order := [];
    var stack := Initial(roots, inSource).stack;
    InitialKeeps(index, roots, inSource);
    while stack != []
      invariant Keeps(index, roots, inSource, Walk(stack, placed, order))
      decreases |Fresh(index, Walk(stack, placed, order))|, |stack|
    {
      ghost var w := Walk(stack, placed, order);
      StepKeeps(index, roots, inSource, w);
      StepShrinks(index, roots, inSource, w);
      var top := stack[|stack| - 1];
      stack := stack[..|stack| - 1];
      if top.name in placed || top.name !in index {
      } else if top.expanded {
        placed := placed + {top.name};
        order := order + [top.name];
      } else {
        stack := stack + [Entry(top.name, true)];
        stack := stack + Pushed(index, placed, index[top.name]);
      }
      assert Walk(stack, placed, order) == Step(index, w);
    }
    DoneLists(index, roots, inSource, Walk(stack, placed, order));
  }

  /** Merging the merged source again adds nothing: it uses what the source and the listed modules use, and of that
      nothing indexed is left out. */
  lemma MergeAgainAddsNothing(index: Index, roots: seq<Module>, order: seq<Module>, roots': seq<Module>)
    requires Listing(index, roots, order)
    requires forall u :: u in roots' ==> u in roots || exists m :: m in order && m in index && u in index[m]
    ensures var left := index - set m | m in order; forall m :: !Wanted(left, roots', m)
  {
    var left := index - set m | m in order;
    forall u | u in roots' ensures u !in left {
      if u in index {
        if u in roots {
          ReachRefl(Uses(index), u);
          assert Wanted(index, roots, u);
        } else {
          var m :| m in order && m in index && u in index[m];
          var i :| 0 <= i < |order| && order[i] == m;
          assert u in order[..i];
        }
      }
    }
  }
}
