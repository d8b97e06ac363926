/** Moving the symbol assignments of an edge past the state it leads to, so that the two states can fuse: the values
    replace the symbols in the state and on the edges out of it, and the assignments move onto those edges. */
module SymbolMotion {
  import opened Options

  type Name = string
  type Store = map<Name, int>

  /** An expression over symbols and data containers; which of the two a name is, `Cfg.arrays` says. */
  datatype Expr = Const(n: int) | Ref(x: Name) | Op(op: int, left: Expr, right: Expr)

  datatype Tasklet = Tasklet(target: Name, value: Expr)

  /** A dataflow state, or a block of another kind (a loop, a conditional), which may change symbols and data. */
  datatype Block = State(tasklets: seq<Tasklet>) | Other(id: int)

  /** An interstate edge: unconditional when `cond` is `None`; the values of `assigns` read the symbols before it. */
  datatype Edge = Edge(src: nat, dst: nat, cond: Option<Expr>, assigns: map<Name, Expr>)

  datatype Cfg = Cfg(arrays: set<Name>, start: nat, blocks: map<nat, Block>, edges: seq<Edge>)

  // ---------------------------------------------------------------- meaning

  /** What operators compute and what the blocks of other kinds do; the results hold for any. */
  datatype Meaning = Meaning(apply: (int, int, int) -> int, other: (int, Store, Store) -> (Store, Store))

  ghost function Get(s: Store, x: Name): int {
    if x in s then s[x] else 0
  }

  ghost function Eval(m: Meaning, arrays: set<Name>, e: Expr, syms: Store, data: Store): int {
    match e
    case Const(n) => n
    case Ref(x) => if x in arrays then Get(data, x) else Get(syms, x)
    case Op(op, l, r) => m.apply(op, Eval(m, arrays, l, syms, data), Eval(m, arrays, r, syms, data))
  }

  /** All assignments of an edge at once. */
  ghost function Assign(m: Meaning, arrays: set<Name>, assigns: map<Name, Expr>, syms: Store, data: Store): Store {
    syms + map x | x in assigns :: Eval(m, arrays, assigns[x], syms, data)
  }

  ghost function RunTasklets(m: Meaning, arrays: set<Name>, ts: seq<Tasklet>, syms: Store, data: Store): Store {
    if ts == [] then data
    else RunTasklets(m, arrays, ts[1..], syms, data[ts[0].target := Eval(m, arrays, ts[0].value, syms, data)])
  }

  /** Where a run stands: at the entry of a block. */
  datatype Config = Config(block: nat, syms: Store, data: Store)

  /** Symbols and data once the block has run. */
  ghost function Leave(m: Meaning, g: Cfg, c: Config): (Store, Store) {
    if c.block !in g.blocks then (c.syms, c.data)
    else match g.blocks[c.block]
      case State(ts) => (c.syms, RunTasklets(m, g.arrays, ts, c.syms, c.data))
      case Other(id) => m.other(id, c.syms, c.data)
  }

  ghost predicate Enabled(m: Meaning, g: Cfg, cond: Option<Expr>, syms: Store, data: Store) {
    cond.Some? ==> Eval(m, g.arrays, cond.value, syms, data) != 0
  }

  /** Run the block and take the edge numbered `i`, if it leaves the block and its condition holds. */
  ghost function Step(m: Meaning, g: Cfg, c: Config, i: nat): Option<Config> {
    if i >= |g.edges| || g.edges[i].src != c.block then None
    else
      var e := g.edges[i];
      var (syms, data) := Leave(m, g, c);
      if !Enabled(m, g, e.cond, syms, data) then None
      else Some(Config(e.dst, Assign(m, g.arrays, e.assigns, syms, data), data))
  }

  /** The run that takes the edges of `path` one after another; `None` if the program cannot run that way. */
  ghost function Run(m: Meaning, g: Cfg, c: Config, path: seq<nat>): Option<Config>
    decreases |path|
  {
    if path == [] then Some(c)
    else
      var n := Step(m, g, c, path[0]);
      if n.None? then None else Run(m, g, n.value, path[1..])
  }

  // ---------------------------------------------------------------- the rewrite

  function Free(e: Expr): set<Name> {
    match e
    case Const(_) => {}
    case Ref(x) => {x}
    case Op(_, l, r) => Free(l) + Free(r)
  }

  function Subst(e: Expr, values: map<Name, Expr>): Expr {
    match e
    case Const(_) => e
    case Ref(x) => if x in values then values[x] else e
    case Op(op, l, r) => Op(op, Subst(l, values), Subst(r, values))
  }

  function SubstTasklets(ts: seq<Tasklet>, values: map<Name, Expr>): seq<Tasklet> {
    if ts == [] then [] else [ts[0].(value := Subst(ts[0].value, values))] + SubstTasklets(ts[1..], values)
  }

  /** `replace_dict(values, replace_keys=False)` on an edge out of the state, then `{**values, **assignments}`. */
  function SubstEdge(e: Edge, values: map<Name, Expr>): Edge {
    e.(cond := match e.cond case None => None case Some(c) => Some(Subst(c, values)),
       assigns := values + (map x | x in e.assigns :: Subst(e.assigns[x], values)))
  }

  /** `_movable_past`. */
  predicate MovablePast(g: Cfg, i: nat)
    requires i < |g.edges|
  {
    var e := g.edges[i];
    && e.assigns != map[] && e.cond.None?
    && e.dst in g.blocks && g.blocks[e.dst].State?
    && (forall j :: 0 <= j < |g.edges| && g.edges[j].dst == e.dst ==> j == i)
    && (exists j :: 0 <= j < |g.edges| && g.edges[j].src == e.dst)
    && (forall x :: x in e.assigns ==> Free(e.assigns[x]) !! g.arrays + e.assigns.Keys)
  }

  /** The graph with edge `i`'s assignments moved past its destination. */
  ghost function Moved(g: Cfg, i: nat): Cfg
    requires i < |g.edges| && g.edges[i].dst in g.blocks && g.blocks[g.edges[i].dst].State?
  {
    var after, values := g.edges[i].dst, g.edges[i].assigns;
    g.(blocks := g.blocks[after := State(SubstTasklets(g.blocks[after].tasklets, values))],
       edges := seq(|g.edges|, j requires 0 <= j < |g.edges| => MovedEdge(g, i, j)))
  }

  ghost function MovedEdge(g: Cfg, i: nat, j: nat): Edge
    requires i < |g.edges| && j < |g.edges|
  {
    if j == i then g.edges[i].(assigns := map[])
    else if g.edges[j].src == g.edges[i].dst then SubstEdge(g.edges[j], g.edges[i].assigns)
    else g.edges[j]
  }

  // ---------------------------------------------------------------- substitution is assignment

  /** The moved values read no data and none of the symbols they set. */
  ghost predicate Closed(arrays: set<Name>, values: map<Name, Expr>) {
    values.Keys !! arrays && forall x :: x in values ==> Free(values[x]) !! arrays + values.Keys
  }

  /** No tasklet writes a container that the values read. */
  ghost predicate Steady(arrays: set<Name>, ts: seq<Tasklet>, values: map<Name, Expr>) {
    values.Keys !! arrays &&
    forall t, x :: t in ts && x in values && t.target in arrays ==> t.target !in Free(values[x])
  }

  /** Only the names an expression mentions matter. */
  lemma {:induction false} EvalAgree(m: Meaning, arrays: set<Name>, e: Expr, s: Store, d: Store, s': Store, d': Store)
    requires forall x :: x in Free(e) && x in arrays ==> Get(d, x) == Get(d', x)
    requires forall x :: x in Free(e) && x !in arrays ==> Get(s, x) == Get(s', x)
    ensures Eval(m, arrays, e, s, d) == Eval(m, arrays, e, s', d')
  {
    match e
    case Op(op, l, r) =>
      EvalAgree(m, arrays, l, s, d, s', d');
      EvalAgree(m, arrays, r, s, d, s', d');
    case _ =>
  }

  /** Assigning the values twice, or against other data, gives the symbols once assigned. */
  lemma AssignTwice(m: Meaning, arrays: set<Name>, values: map<Name, Expr>, s: Store, d: Store, d': Store)
    requires Closed(arrays, values)
    ensures Assign(m, arrays, values, s, d) == Assign(m, arrays, values, s, d')
    ensures Assign(m, arrays, values, Assign(m, arrays, values, s, d), d') == Assign(m, arrays, values, s, d)
  {
    var s1 := Assign(m, arrays, values, s, d);
    forall x | x in values
      ensures Eval(m, arrays, values[x], s, d) == Eval(m, arrays, values[x], s, d')
      ensures Eval(m, arrays, values[x], s1, d') == Eval(m, arrays, values[x], s, d)
    {
      EvalAgree(m, arrays, values[x], s, d, s, d');
      EvalAgree(m, arrays, values[x], s1, d', s, d);
    }
  }

  lemma {:induction false} SubstEval(m: Meaning, arrays: set<Name>, values: map<Name, Expr>, e: Expr, s: Store,
                                     d: Store)
    requires values.Keys !! arrays
    ensures Eval(m, arrays, Subst(e, values), s, d) == Eval(m, arrays, e, Assign(m, arrays, values, s, d), d)
  {
    match e
    case Op(op, l, r) =>
      SubstEval(m, arrays, values, l, s, d);
      SubstEval(m, arrays, values, r, s, d);
    case _ =>
  }

  /** Assigning before a tasklet or after it gives the same. */
  lemma SteadyAssign(m: Meaning, arrays: set<Name>, values: map<Name, Expr>, ts: seq<Tasklet>, s: Store, d: Store,
                     v: int)
    requires Steady(arrays, ts, values) && ts != []
    ensures Assign(m, arrays, values, s, d[ts[0].target := v]) == Assign(m, arrays, values, s, d)
  {
    assert ts[0] in ts;
    forall x | x in values
      ensures Eval(m, arrays, values[x], s, d[ts[0].target := v]) == Eval(m, arrays, values[x], s, d)
    {
      EvalAgree(m, arrays, values[x], s, d[ts[0].target := v], s, d);
    }
  }

  lemma {:induction false} SubstRun(m: Meaning, arrays: set<Name>, values: map<Name, Expr>, ts: seq<Tasklet>,
                                    s: Store, d: Store)
    requires Steady(arrays, ts, values)
    ensures var s1, d1 := Assign(m, arrays, values, s, d), RunTasklets(m, arrays, SubstTasklets(ts, values), s, d);
            d1 == RunTasklets(m, arrays, ts, s1, d) && Assign(m, arrays, values, s, d1) == s1
    decreases |ts|
  {
    if ts != [] {
      var s1 := Assign(m, arrays, values, s, d);
      SubstEval(m, arrays, values, ts[0].value, s, d);
      var v := Eval(m, arrays, ts[0].value, s1, d);
      SteadyAssign(m, arrays, values, ts, s, d, v);
      SubstRun(m, arrays, values, ts[1..], s, d[ts[0].target := v]);
      assert SubstTasklets(ts, values)[1..] == SubstTasklets(ts[1..], values);
    }
  }

  /** Leaving the state: the rewritten edge sets all at once what the two edges set one after the other. */
  lemma SubstAssign(m: Meaning, arrays: set<Name>, values: map<Name, Expr>, e: Edge, s: Store, d: Store)
    requires values.Keys !! arrays
    ensures Assign(m, arrays, SubstEdge(e, values).assigns, s, d) ==
            Assign(m, arrays, e.assigns, Assign(m, arrays, values, s, d), d)
  {
    var s1 := Assign(m, arrays, values, s, d);
    var both := SubstEdge(e, values).assigns;
    var left, right := Assign(m, arrays, both, s, d), Assign(m, arrays, e.assigns, s1, d);
    forall x | x in left ensures left[x] == right[x] {
      if x in e.assigns {
        SubstEval(m, arrays, values, e.assigns[x], s, d);
        assert both[x] == Subst(e.assigns[x], values);
      } else if x in values {
        assert both[x] == values[x];
      }
    }
  }

  // ---------------------------------------------------------------- simulation

  /** Same block and data; same symbols, but in the state itself the move has yet to set the values. */
  ghost predicate Related(m: Meaning, g: Cfg, i: nat, c: Config, c': Config)
    requires i < |g.edges|
  {
    && c.block == c'.block && c.data == c'.data
    && c.syms == (if c.block == g.edges[i].dst then Assign(m, g.arrays, g.edges[i].assigns, c'.syms, c'.data)
                  else c'.syms)
  }

  ghost predicate RelatedResults(m: Meaning, g: Cfg, i: nat, r: Option<Config>, r': Option<Config>)
    requires i < |g.edges|
  {
    match (r, r')
    case (None, None) => true
    case (Some(c), Some(c')) => Related(m, g, i, c, c')
    case _ => false
  }

  /** Symbols and containers have different names. */
  ghost predicate NamesApart(g: Cfg) {
    forall j :: 0 <= j < |g.edges| ==> g.edges[j].assigns.Keys !! g.arrays
  }

  /** What the rewrite needs of the edge: it leads into a state that is entered along it only and that writes no
      container its values read.  An edge that leads from the state back to itself sets the same when taken again. */
  ghost predicate Pushable(g: Cfg, i: nat)
    requires i < |g.edges|
  {
    var e := g.edges[i];
    && e.cond.None? && e.dst in g.blocks && g.blocks[e.dst].State?
    && (forall j :: 0 <= j < |g.edges| && g.edges[j].dst == e.dst ==> j == i)
    && Steady(g.arrays, g.blocks[e.dst].tasklets, e.assigns)
    && (e.src == e.dst ==> Closed(g.arrays, e.assigns))
  }

  lemma MovableIsPushable(g: Cfg, i: nat)
    requires i < |g.edges| && MovablePast(g, i) && NamesApart(g)
    ensures Pushable(g, i)
  {}

  /** In the state: both programs compute the same data, and leave the symbols as they found them. */
  lemma LeaveState(m: Meaning, g: Cfg, i: nat, c: Config, c': Config)
    requires i < |g.edges| && Pushable(g, i)
    requires Related(m, g, i, c, c') && c.block == g.edges[i].dst
    ensures Leave(m, g, c).0 == c.syms && Leave(m, Moved(g, i), c') == (c'.syms, Leave(m, g, c).1)
    ensures c.syms == Assign(m, g.arrays, g.edges[i].assigns, c'.syms, Leave(m, g, c).1)
  {
    var values, after := g.edges[i].assigns, g.edges[i].dst;
    SubstRun(m, g.arrays, values, g.blocks[after].tasklets, c'.syms, c'.data);
  }

  lemma StepInState(m: Meaning, g: Cfg, i: nat, c: Config, c': Config, j: nat)
    requires i < |g.edges| && Pushable(g, i) && NamesApart(g)
    requires Related(m, g, i, c, c') && c.block == g.edges[i].dst
    ensures RelatedResults(m, g, i, Step(m, g, c, j), Step(m, Moved(g, i), c', j))
  {
    var values, data := g.edges[i].assigns, Leave(m, g, c).1;
    LeaveState(m, g, i, c, c');
    if j == i {
      assert Assign(m, g.arrays, map[], c'.syms, data) == c'.syms;
      if g.edges[i].src == c.block {
        AssignTwice(m, g.arrays, values, c'.syms, data, data);
      }
    } else if j < |g.edges| && g.edges[j].src == c.block {
      assert Moved(g, i).edges[j] == SubstEdge(g.edges[j], values);
      SubstAssign(m, g.arrays, values, g.edges[j], c'.syms, data);
      SubstCond(m, g, values, g.edges[j], c'.syms, data);
    }
  }

  lemma SubstCond(m: Meaning, g: Cfg, values: map<Name, Expr>, e: Edge, s: Store, d: Store)
    requires values.Keys !! g.arrays
    ensures Enabled(m, g, SubstEdge(e, values).cond, s, d) <==>
            Enabled(m, g, e.cond, Assign(m, g.arrays, values, s, d), d)
  {
    if e.cond.Some? {
      SubstEval(m, g.arrays, values, e.cond.value, s, d);
    }
  }

  lemma StepElsewhere(m: Meaning, g: Cfg, i: nat, c: Config, c': Config, j: nat)
    requires i < |g.edges| && Pushable(g, i) && NamesApart(g)
    requires Related(m, g, i, c, c') && c.block != g.edges[i].dst
    ensures RelatedResults(m, g, i, Step(m, g, c, j), Step(m, Moved(g, i), c', j))
  {
    var g' := Moved(g, i);
    assert c == c' && Leave(m, g, c) == Leave(m, g', c');
    if j == i {
      var (syms, data) := Leave(m, g, c);
      assert Assign(m, g.arrays, map[], syms, data) == syms;
    }
  }

  /** Every run of the program is a run of the rewritten one, edge by edge, and the other way round: the same blocks,
      the same data, the same choices, and the same symbols everywhere but inside the state. */
  lemma {:induction false} MoveSimulates(m: Meaning, g: Cfg, i: nat, c: Config, c': Config, path: seq<nat>)
    requires i < |g.edges| && Pushable(g, i) && NamesApart(g)
    requires Related(m, g, i, c, c')
    ensures RelatedResults(m, g, i, Run(m, g, c, path), Run(m, Moved(g, i), c', path))
    decreases |path|
  {
    if path != [] {
      if c.block == g.edges[i].dst {
        StepInState(m, g, i, c, c', path[0]);
      } else {
        StepElsewhere(m, g, i, c, c', path[0]);
      }
      var n, n' := Step(m, g, c, path[0]), Step(m, Moved(g, i), c', path[0]);
      if n.Some? {
        MoveSimulates(m, g, i, n.value, n'.value, path[1..]);
      }
    }
  }

  /** What a run shows: where it is and the data there. */
  ghost function Observe(r: Option<Config>): Option<(nat, Store)> {
    match r
    case None => None
    case Some(c) => Some((c.block, c.data))
  }

  ghost predicate SameRuns(g: Cfg, g': Cfg) {
    g.start == g'.start && forall m, syms, data, path ::
      Observe(Run(m, g, Config(g.start, syms, data), path)) == Observe(Run(m, g', Config(g.start, syms, data), path))
  }

  /** A block that is not entered before its only edge is taken: the rewrite changes no run of the program. */
  lemma MoveKeepsRuns(g: Cfg, i: nat)
    requires i < |g.edges| && MovablePast(g, i) && NamesApart(g) && g.edges[i].dst != g.start
    ensures SameRuns(g, Moved(g, i))
  {
    forall m, syms, data, path
      ensures Observe(Run(m, g, Config(g.start, syms, data), path)) ==
              Observe(Run(m, Moved(g, i), Config(g.start, syms, data), path))
    {
      MovableIsPushable(g, i);
      MoveSimulates(m, g, i, Config(g.start, syms, data), Config(g.start, syms, data), path);
    }
  }

  /** A state that is both the start block and the destination of its only edge in. */
  ghost function EnteredTwice(): Cfg {
    Cfg({"d"}, 0, map[0 := State([Tasklet("d", Ref("k"))]), 1 := State([])],
        [Edge(0, 1, None, map[]), Edge(1, 0, None, map["k" := Const(5)])])
  }

  lemma EnteredTwiceMovable()
    ensures MovablePast(EnteredTwice(), 1) && NamesApart(EnteredTwice())
  {
    var g := EnteredTwice();
    assert "k" in g.edges[1].assigns;
    assert g.edges[0].src == g.edges[1].dst;
  }

  /** Leaving a state with one tasklet. */
  lemma OneTasklet(m: Meaning, g: Cfg, t: Tasklet, v: int)
    requires 0 in g.blocks && g.blocks[0] == State([t])
    requires |g.edges| > 0 && g.edges[0].src == 0 && g.edges[0].cond.None?
    requires Eval(m, g.arrays, t.value, map[], map[]) == v
    ensures Observe(Run(m, g, Config(0, map[], map[]), [0])) == Some((g.edges[0].dst, map[t.target := v]))
  {
    var c := Config(0, map[], map[]);
    assert [t][1..] == [];
    assert RunTasklets(m, g.arrays, [t], c.syms, c.data) == map[t.target := v];
    var n := Step(m, g, c, 0);
    assert n.Some? && n.value.data == map[t.target := v];
    assert [0][1..] == [];
    assert Run(m, g, n.value, []) == n;
  }

  /** The pass does not look at the start block, and there the rewrite does change the run: started in the state, the
      program has not set the symbol the rewritten state replaces by its value. */
  lemma StartBlockBreaks()
    ensures var g := EnteredTwice();
            MovablePast(g, 1) && NamesApart(g) && g.edges[1].dst == g.start && !SameRuns(g, Moved(g, 1))
  {
    var g := EnteredTwice();
    EnteredTwiceMovable();
    var g' := Moved(g, 1);
    var m := Meaning((op, x, y) => x, (id, s: Store, d: Store) => (s, d));
    OneTasklet(m, g, Tasklet("d", Ref("k")), 0);
    assert g'.blocks[0].tasklets == [Tasklet("d", Const(5))];
    assert g'.edges[0] == SubstEdge(g.edges[0], map["k" := Const(5)]);
    OneTasklet(m, g', Tasklet("d", Const(5)), 5);
    assert map["d" := 0]["d"] != map["d" := 5]["d"];
  }

  /** All a run shows, but the symbols inside the block `after`. */
  ghost function Outside(after: nat, r: Option<Config>): Option<Config> {
    match r
    case None => None
    case Some(c) => Some(if c.block == after then c.(syms := map[]) else c)
  }

  /** The same runs, with the same symbols everywhere outside `after`. */
  ghost predicate SameOutside(g: Cfg, g': Cfg, after: nat) {
    forall m, syms, data, path ::
      Outside(after, Run(m, g, Config(g.start, syms, data), path)) ==
          Outside(after, Run(m, g', Config(g.start, syms, data), path))
  }

  lemma MoveKeepsSymbols(g: Cfg, i: nat)
    requires i < |g.edges| && MovablePast(g, i) && NamesApart(g) && g.edges[i].dst != g.start
    ensures SameOutside(g, Moved(g, i), g.edges[i].dst)
  {
    MovableIsPushable(g, i);
    PushKeepsSymbols(g, i);
  }

  lemma PushKeepsSymbols(g: Cfg, i: nat)
    requires i < |g.edges| && Pushable(g, i) && NamesApart(g) && g.edges[i].dst != g.start
    ensures SameOutside(g, Moved(g, i), g.edges[i].dst)
  {
    forall m, syms, data, path
      ensures Outside(g.edges[i].dst, Run(m, g, Config(g.start, syms, data), path)) ==
              Outside(g.edges[i].dst, Run(m, Moved(g, i), Config(g.start, syms, data), path))
    {
      MoveSimulates(m, g, i, Config(g.start, syms, data), Config(g.start, syms, data), path);
    }
  }

  // ---------------------------------------------------------------- what the pass refuses

  /** All that `_movable_past` asks of an edge but for what its values read. */
  ghost predicate Eligible(g: Cfg, i: nat)
    requires i < |g.edges|
  {
    var e := g.edges[i];
    && e.assigns.Keys != {} && e.cond.None?
    && (exists ts :: e.dst in g.blocks && g.blocks[e.dst] == State(ts))
    && (forall j :: 0 <= j < |g.edges| && j != i ==> g.edges[j].dst != e.dst)
    && (exists j :: 0 <= j < |g.edges| && g.edges[j].src == e.dst)
  }

  /** A value reads a container. */
  ghost predicate ReadsData(g: Cfg, i: nat)
    requires i < |g.edges|
  {
    exists x, y :: ValueNames(g.edges[i], x, y) && y in g.arrays
  }

  /** A value reads a symbol that the edge sets. */
  ghost predicate ReadsOwn(g: Cfg, i: nat)
    requires i < |g.edges|
  {
    exists x, y :: ValueNames(g.edges[i], x, y) && y in g.edges[i].assigns
  }

  ghost predicate ValueNames(e: Edge, x: Name, y: Name) {
    x in e.assigns && y in Free(e.assigns[x])
  }

  /** An eligible edge is refused exactly when a value reads a container or a symbol that the edge sets. */
  lemma RefusedIff(g: Cfg, i: nat)
    requires i < |g.edges|
    ensures MovablePast(g, i) <==> Eligible(g, i) && !ReadsData(g, i) && !ReadsOwn(g, i)
  {
    var e := g.edges[i];
    assert e.assigns != map[] <==> e.assigns.Keys != {};
    if e.dst in g.blocks && g.blocks[e.dst].State? {
      assert g.blocks[e.dst] == State(g.blocks[e.dst].tasklets);
    }
    if MovablePast(g, i) {
      forall x, y | ValueNames(e, x, y) ensures y !in g.arrays && y !in e.assigns {
        assert Free(e.assigns[x]) !! g.arrays + e.assigns.Keys;
      }
    }
    if Eligible(g, i) && !ReadsData(g, i) && !ReadsOwn(g, i) {
      forall x | x in e.assigns ensures Free(e.assigns[x]) !! g.arrays + e.assigns.Keys {
        forall y | y in Free(e.assigns[x]) ensures y !in g.arrays + e.assigns.Keys {
          assert ValueNames(e, x, y);
        }
      }
    }
  }

  /** Into a state that is not the start block: moving an edge that sets symbols its own values read would keep every
      run, too.  (A state that only an edge of its own leads into is never entered.) */
  lemma OwnSymbolsHarmless(g: Cfg, i: nat)
    requires i < |g.edges| && Eligible(g, i) && !ReadsData(g, i) && NamesApart(g) && g.edges[i].dst != g.start
    ensures SameOutside(g, Moved(g, i), g.edges[i].dst)
  {
    var e := g.edges[i];
    forall x, y | x in e.assigns && y in Free(e.assigns[x]) ensures y !in g.arrays {
      assert ValueNames(e, x, y);
    }
    if e.src == e.dst {
      forall m, s, d, path
        ensures Run(m, g, Config(g.start, s, d), path) == Run(m, Moved(g, i), Config(g.start, s, d), path)
      {
        NeverEntered(m, g, i, Config(g.start, s, d), path);
      }
    } else {
      PushKeepsSymbols(g, i);
    }
  }

  lemma {:induction false} NeverEntered(m: Meaning, g: Cfg, i: nat, c: Config, path: seq<nat>)
    requires i < |g.edges| && Eligible(g, i) && g.edges[i].src == g.edges[i].dst && c.block != g.edges[i].dst
    ensures Run(m, g, c, path) == Run(m, Moved(g, i), c, path)
    decreases |path|
  {
    if path != [] {
      var j := path[0];
      assert Leave(m, g, c) == Leave(m, Moved(g, i), c);
      if j < |g.edges| && g.edges[j].src == c.block {
        assert j != i && Moved(g, i).edges[j] == g.edges[j];
      }
      var n := Step(m, g, c, j);
      assert n == Step(m, Moved(g, i), c, j);
      if n.Some? {
        NeverEntered(m, g, i, n.value, path[1..]);
      }
    }
  }

  /** The symbol takes the value of a container, which the state between then changes; `first` and `second` are what the
      two edges set. */
  ghost function ReadThenChanged(d: Name, first: map<Name, Expr>, second: map<Name, Expr>): Cfg {
    Cfg({d}, 0, map[0 := State([]), 1 := State([Tasklet(d, Const(5))]), 2 := State([])],
        [Edge(0, 1, None, first), Edge(1, 2, None, second)])
  }

  lemma MovesRead(d: Name, k: Name)
    requires k != d
    ensures var g := ReadThenChanged(d, map[k := Ref(d)], map[]);
            && Eligible(g, 0) && ReadsData(g, 0) && NamesApart(g)
            && Moved(g, 0) == ReadThenChanged(d, map[], map[k := Ref(d)])
  {
    var g := ReadThenChanged(d, map[k := Ref(d)], map[]);
    var g' := Moved(g, 0);
    assert ValueNames(g.edges[0], k, d);
    assert g.edges[1].src == 1 && g.edges[0].assigns.Keys == {k};
    assert g.blocks[1] == State([Tasklet(d, Const(5))]);
    assert SubstTasklets([Tasklet(d, Const(5))], map[k := Ref(d)]) == [Tasklet(d, Const(5))];
    assert g'.edges[1].assigns == map[k := Ref(d)];
    assert g'.edges == ReadThenChanged(d, map[], map[k := Ref(d)]).edges;
    assert g'.blocks == g.blocks;
  }

  /** Moving an edge that reads a container can change the symbols a run ends with. */
  lemma DataRefusalNeeded(d: Name, k: Name)
    requires k != d
    ensures var g := ReadThenChanged(d, map[k := Ref(d)], map[]);
            Eligible(g, 0) && ReadsData(g, 0) && NamesApart(g) && g.edges[0].dst != g.start &&
            !SameOutside(g, Moved(g, 0), g.edges[0].dst)
  {
    var m := Meaning((op, x, y) => x, (id, s: Store, d: Store) => (s, d));
    var g, g' := ReadThenChanged(d, map[k := Ref(d)], map[]), ReadThenChanged(d, map[], map[k := Ref(d)]);
    MovesRead(d, k);
    OneWrite(m, d, map[k := 0]);
    OneWrite(m, d, map[]);
    TwoSteps(m, g, map[k := 0], map[k := 0], map[d := 5]);
    TwoSteps(m, g', map[], map[k := 5], map[d := 5]);
    var c := Config(0, map[], map[]);
    assert map[k := 0][k] != map[k := 5][k];
    assert Outside(1, Run(m, g, c, [0, 1])) != Outside(1, Run(m, g', c, [0, 1]));
  }

  lemma OneWrite(m: Meaning, d: Name, s: Store)
    ensures RunTasklets(m, {d}, [Tasklet(d, Const(5))], s, map[]) == map[d := 5]
  {
    assert [Tasklet(d, Const(5))][1..] == [];
  }

  lemma TwoSteps(m: Meaning, g: Cfg, s1: Store, s2: Store, d: Store)
    requires |g.edges| == 2 && g.edges[0].src == 0 && g.edges[0].dst == 1 && g.edges[1].src == 1 && g.edges[1].dst == 2
    requires g.edges[0].cond.None? && g.edges[1].cond.None? && Leave(m, g, Config(0, map[], map[])) == (map[], map[])
    requires Assign(m, g.arrays, g.edges[0].assigns, map[], map[]) == s1
    requires Leave(m, g, Config(1, s1, map[])) == (s1, d) && Assign(m, g.arrays, g.edges[1].assigns, s1, d) == s2
    ensures Run(m, g, Config(0, map[], map[]), [0, 1]) == Some(Config(2, s2, d))
  {
    assert [0, 1][1..] == [1] && [1][1..] == [];
    assert Run(m, g, Config(1, s1, map[]), [1]) == Run(m, g, Config(2, s2, d), []);
  }

  // ---------------------------------------------------------------- which edges the pass moves

  ghost predicate OnlyEdgeOut(g: Cfg, s: nat, i: nat) {
    i < |g.edges| && forall j :: 0 <= j < |g.edges| ==> (g.edges[j].src == s <==> j == i)
  }

  /** The pass moves the edge `i` when it comes to the state `s`. */
  ghost predicate MovesAt(g: Cfg, s: nat, stencil: (Cfg, nat, nat) -> bool, i: nat) {
    && OnlyEdgeOut(g, s, i) && stencil(g, s, g.edges[i].dst)
    && MovablePast(g, i) && Eligible(g, i) && !ReadsData(g, i) && !ReadsOwn(g, i)
  }

  /** What the pass does at one state. */
  ghost predicate JoinsAt(g: Cfg, s: nat, stencil: (Cfg, nat, nat) -> bool, move: Option<nat>, g': Cfg) {
    match move
    case Some(i) => MovesAt(g, s, stencil, i) && g' == Moved(g, i)
    case None => (forall i :: RefusedAt(g, s, stencil, i)) && g' == g
  }

  /** An edge it leaves alone is not the only one out, or has no stencil behind it, or is not eligible, or reads what
      may change. */
  ghost predicate RefusedAt(g: Cfg, s: nat, stencil: (Cfg, nat, nat) -> bool, i: nat) {
    OnlyEdgeOut(g, s, i) && stencil(g, s, g.edges[i].dst) && Eligible(g, i) ==> ReadsData(g, i) || ReadsOwn(g, i)
  }

  /** And at all the states of `order`, one after the other. */
  ghost predicate Joins(g: Cfg, order: seq<nat>, stencil: (Cfg, nat, nat) -> bool, moves: seq<Option<nat>>, g': Cfg)
    decreases |order|
  {
    |moves| == |order| &&
    if order == [] then g' == g
    else
      var n := |order| - 1;
      exists h :: Joins(g, order[..n], stencil, moves[..n], h) && JoinsAt(h, order[n], stencil, moves[n], g')
  }

  function Count(moves: seq<Option<nat>>): nat {
    if moves == [] then 0 else Count(moves[..|moves| - 1]) + if moves[|moves| - 1].Some? then 1 else 0
  }

  lemma CountNext(moves: seq<Option<nat>>, move: Option<nat>)
    ensures Count(moves + [move]) == Count(moves) + if move.Some? then 1 else 0
  {
    assert (moves + [move])[..|moves|] == moves;
  }

  /** None of the edges moved leads into the start block. */
  ghost predicate SparesStart(g: Cfg, moves: seq<Option<nat>>) {
    forall k :: 0 <= k < |moves| && moves[k].Some? && moves[k].value < |g.edges| ==>
        g.edges[moves[k].value].dst != g.start
  }

  ghost predicate SameEnds(g: Cfg, g': Cfg) {
    && g'.start == g.start && g'.arrays == g.arrays && |g'.edges| == |g.edges|
    && forall j :: 0 <= j < |g.edges| ==> g'.edges[j].src == g.edges[j].src && g'.edges[j].dst == g.edges[j].dst
  }

  /** However many edges are moved, if none of them leads into the start block every run shows what it showed. */
  lemma {:induction false} JoinsKeepRuns(g: Cfg, order: seq<nat>, stencil: (Cfg, nat, nat) -> bool,
                                         moves: seq<Option<nat>>, g': Cfg)
    requires Joins(g, order, stencil, moves, g') && NamesApart(g) && SparesStart(g, moves)
    ensures SameRuns(g, g') && NamesApart(g') && SameEnds(g, g')
    decreases |order|
  {
    if order != [] {
      var n := |order| - 1;
      var h :| Joins(g, order[..n], stencil, moves[..n], h) && JoinsAt(h, order[n], stencil, moves[n], g');
      forall k | 0 <= k < n && moves[..n][k].Some? && moves[..n][k].value < |g.edges|
        ensures g.edges[moves[..n][k].value].dst != g.start
      {
        assert moves[..n][k] == moves[k];
      }
      JoinsKeepRuns(g, order[..n], stencil, moves[..n], h);
      if moves[n].Some? {
        MoveKeepsRuns(h, moves[n].value);
        MovedKeepsEnds(h, moves[n].value);
      }
    }
  }

  lemma MovedKeepsEnds(g: Cfg, i: nat)
    requires i < |g.edges| && MovablePast(g, i) && NamesApart(g)
    ensures SameEnds(g, Moved(g, i)) && NamesApart(Moved(g, i))
  {
    forall j | 0 <= j < |g.edges| ensures Moved(g, i).edges[j] == MovedEdge(g, i, j) {}
  }

  // ---------------------------------------------------------------- the pass

  class Sdfg {
    const arrays: set<Name>
    const start: nat
    var blocks: map<nat, Block>
    var edges: seq<Edge>

    constructor (g: Cfg)
      ensures Graph() == g
    {
      arrays, start, blocks, edges := g.arrays, g.start, g.blocks, g.edges;
    }

    function Graph(): Cfg
      reads this
    {
      Cfg(arrays, start, blocks, edges)
    }

    /** The rewriting part of `join_stencil_states`, on the edge numbered `i`. */
    method MoveAssignments(i: nat)
      requires i < |edges| && MovablePast(Graph(), i)
      modifies this
      ensures Graph() == Moved(old(Graph()), i)
    {
      ghost var g := Graph();
      var after, values := edges[i].dst, edges[i].assigns;
      blocks := blocks[after := State(SubstTasklets(blocks[after].tasklets, values))];
      for j := 0 to |edges|
        invariant |edges| == |g.edges| && blocks == Moved(g, i).blocks
        invariant forall k :: 0 <= k < j && k != i ==> edges[k] == MovedEdge(g, i, k)
        invariant forall k :: j <= k < |edges| ==> edges[k] == g.edges[k]
        invariant i < j ==> edges[i].(assigns := map[]) == MovedEdge(g, i, i)
      {
        if edges[j].src == after {
          edges := edges[j := SubstEdge(edges[j], values)];
        }
      }
      edges := edges[i := edges[i].(assigns := map[])];
      assert edges == Moved(g, i).edges;
    }

    /** `join_stencil_states` up to the fusion of each pair: move the assignments wherever the pass finds a stencil's
        producer (`order` lists the states) whose only way out leads to a consumer.  `stencil` is the pass's test on
        the two states. */
    method Join(order: seq<nat>, stencil: (Cfg, nat, nat) -> bool) returns (moved: nat)
      modifies this
      ensures exists moves ::
        && Joins(old(Graph()), order, stencil, moves, Graph()) && moved == Count(moves)
        && (old(NamesApart(Graph())) && SparesStart(old(Graph()), moves) ==> SameRuns(old(Graph()), Graph()))
    {
      moved := 0;
      ghost var moves: seq<Option<nat>> := [];
      for k := 0 to |order|
        invariant Joins(old(Graph()), order[..k], stencil, moves, Graph()) && moved == Count(moves)
      {
        var done;
        ghost var move;
        done, move := JoinState(order[k], stencil);
        if done {
          moved := moved + 1;
        }
        assert order[..k + 1][..k] == order[..k] && (moves + [move])[..k] == moves;
        CountNext(moves, move);
        moves := moves + [move];
      }
      assert order[..|order|] == order;
      if old(NamesApart(Graph())) && SparesStart(old(Graph()), moves) {
        JoinsKeepRuns(old(Graph()), order, stencil, moves, Graph());
      }
    }

    /** The body of `join_stencil_states`' loop. */
    method JoinState(s: nat, stencil: (Cfg, nat, nat) -> bool) returns (done: bool, ghost move: Option<nat>)
      modifies this
      ensures JoinsAt(old(Graph()), s, stencil, move, Graph()) && (done <==> move.Some?)
    {
      done, move := false, None;
      var found, i := OnlyOut(s);
      if found {
        RefusedIff(Graph(), i);
        if stencil(Graph(), s, edges[i].dst) && MovablePast(Graph(), i) {
          MoveAssignments(i);
          done, move := true, Some(i);
        }
      }
    }

    /** The edge out of a block of out-degree one. */
    method OnlyOut(s: nat) returns (found: bool, i: nat)
      ensures found <==> exists k :: OnlyEdgeOut(Graph(), s, k)
      ensures found ==> OnlyEdgeOut(Graph(), s, i)
    {
      found, i := false, 0;
      for j := 0 to |edges|
        invariant found ==> i < j
        invariant forall l :: 0 <= l < j ==> (edges[l].src == s <==> found && l == i)
      {
        if edges[j].src == s {
          if found {
            assert Graph().edges[i].src == s && Graph().edges[j].src == s;
            found := false;
            return;
          }
          found, i := true, j;
        }
      }
      forall k: nat | OnlyEdgeOut(Graph(), s, k) ensures found {
        assert edges[k].src == s;
      }
      assert found ==> OnlyEdgeOut(Graph(), s, i);
    }
  }
}
