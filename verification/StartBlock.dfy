/** Moving assignments past the start block: what the state computes and what its edges test and set, in terms of the
    stores before it, decides whether a run can tell that the symbols are set too early. */
module StartBlock {
  import opened Options
  import opened SymbolMotion

  // ---------------------------------------------------------------- what the state computes, as expressions

  /** What a container read after the tasklets stands for. */
  function OnData(arrays: set<Name>, env: map<Name, Expr>): map<Name, Expr> {
    map x | x in env && x in arrays :: env[x]
  }

  /** What the tasklets write, in terms of the stores before them. */
  function Results(arrays: set<Name>, ts: seq<Tasklet>, env: map<Name, Expr>): map<Name, Expr>
    decreases |ts|
  {
    if ts == [] then env
    else Results(arrays, ts[1..], env[ts[0].target := Subst(ts[0].value, OnData(arrays, env))])
  }

  ghost function DataOf(m: Meaning, arrays: set<Name>, env: map<Name, Expr>, s: Store, d: Store): Store {
    d + map x | x in env :: Eval(m, arrays, env[x], s, d)
  }

  lemma {:induction false} ValueOf(m: Meaning, arrays: set<Name>, env: map<Name, Expr>, e: Expr, s: Store, d: Store)
    ensures Eval(m, arrays, Subst(e, OnData(arrays, env)), s, d) ==
            Eval(m, arrays, e, s, DataOf(m, arrays, env, s, d))
  {
    match e
    case Op(op, l, r) =>
      ValueOf(m, arrays, env, l, s, d);
      ValueOf(m, arrays, env, r, s, d);
    case _ =>
  }

  lemma {:induction false} ResultsRun(m: Meaning, arrays: set<Name>, ts: seq<Tasklet>, env: map<Name, Expr>, s: Store,
                                      d: Store)
    ensures RunTasklets(m, arrays, ts, s, DataOf(m, arrays, env, s, d)) ==
            DataOf(m, arrays, Results(arrays, ts, env), s, d)
    decreases |ts|
  {
    if ts != [] {
      var t, data := ts[0], DataOf(m, arrays, env, s, d);
      var env' := env[t.target := Subst(t.value, OnData(arrays, env))];
      ValueOf(m, arrays, env, t.value, s, d);
      assert data[t.target := Eval(m, arrays, t.value, s, data)] == DataOf(m, arrays, env', s, d);
      ResultsRun(m, arrays, ts[1..], env', s, d);
    }
  }

  predicate IsState(g: Cfg, b: nat) {
    b in g.blocks && g.blocks[b].State?
  }

  /** What the state writes, and what an expression read behind it comes to. */
  function Written(g: Cfg, b: nat): map<Name, Expr>
    requires IsState(g, b)
  {
    Results(g.arrays, g.blocks[b].tasklets, map[])
  }

  function Behind(g: Cfg, b: nat, e: Expr): Expr
    requires IsState(g, b)
  {
    Subst(e, OnData(g.arrays, Written(g, b)))
  }

  lemma LeaveValues(m: Meaning, g: Cfg, b: nat, s: Store, d: Store)
    requires IsState(g, b)
    ensures Leave(m, g, Config(b, s, d)) == (s, DataOf(m, g.arrays, Written(g, b), s, d))
    ensures forall e :: Eval(m, g.arrays, e, s, Leave(m, g, Config(b, s, d)).1) ==
                        Eval(m, g.arrays, Behind(g, b, e), s, d)
  {
    ResultsRun(m, g.arrays, g.blocks[b].tasklets, map[], s, d);
    assert DataOf(m, g.arrays, map[], s, d) == d;
    forall e ensures Eval(m, g.arrays, e, s, Leave(m, g, Config(b, s, d)).1) ==
                     Eval(m, g.arrays, Behind(g, b, e), s, d) {
      ValueOf(m, g.arrays, Written(g, b), e, s, d);
    }
  }

  // ---------------------------------------------------------------- the condition

  /** The edge leaves a state, and its condition can hold there. */
  predicate CanBeTaken(g: Cfg, j: nat) {
    j < |g.edges| && IsState(g, g.edges[j].src) &&
    (g.edges[j].cond.Some? ==> Behind(g, g.edges[j].src, g.edges[j].cond.value) != Const(0))
  }

  /** What the state writes does not depend on the symbols. */
  predicate WritesApart(g: Cfg, b: nat, xs: set<Name>)
    requires IsState(g, b)
  {
    forall t :: t in Written(g, b) ==> Free(Written(g, b)[t]) !! xs
  }

  /** The edge sets all the symbols itself, and neither its test nor what it sets depends on them. */
  predicate SetsApart(g: Cfg, j: nat, xs: set<Name>)
    requires j < |g.edges| && IsState(g, g.edges[j].src)
  {
    var e := g.edges[j];
    && xs <= e.assigns.Keys
    && (e.cond.Some? ==> Free(Behind(g, e.src, e.cond.value)) !! xs)
    && forall x :: x in e.assigns ==> Free(Behind(g, e.src, e.assigns[x])) !! xs
  }

  /** A run that starts in the state edge `i` leads to cannot tell whether `i`'s symbols are set. */
  predicate Unread(g: Cfg, i: nat)
    requires i < |g.edges| && IsState(g, g.edges[i].dst)
  {
    var b, xs := g.edges[i].dst, g.edges[i].assigns.Keys;
    forall j :: 0 <= j < |g.edges| && g.edges[j].src == b && CanBeTaken(g, j) ==>
      WritesApart(g, b, xs) && (j != i ==> SetsApart(g, j, xs))
  }

  // ---------------------------------------------------------------- telling the runs apart

  /** The stores where the symbols are set. */
  ghost function SetIn(m: Meaning, g: Cfg, i: nat, s: Store, d: Store): Store
    requires i < |g.edges|
  {
    Assign(m, g.arrays, g.edges[i].assigns, s, d)
  }

  /** Started in the state, the rewritten program runs as the program does with the symbols set. */
  lemma RunsAsSet(m: Meaning, g: Cfg, i: nat, s: Store, d: Store, path: seq<nat>)
    requires i < |g.edges| && MovablePast(g, i) && NamesApart(g)
    ensures var b := g.edges[i].dst;
            Outside(b, Run(m, Moved(g, i), Config(b, s, d), path)) ==
            Outside(b, Run(m, g, Config(b, SetIn(m, g, i, s, d), d), path))
  {
    var b := g.edges[i].dst;
    MovableIsPushable(g, i);
    MoveSimulates(m, g, i, Config(b, SetIn(m, g, i, s, d), d), Config(b, s, d), path);
  }

  ghost predicate SameStep(m: Meaning, g: Cfg, i: nat, s: Store, d: Store, j: nat)
    requires i < |g.edges|
  {
    var b := g.edges[i].dst;
    Outside(b, Step(m, g, Config(b, s, d), j)) == Outside(b, Step(m, g, Config(b, SetIn(m, g, i, s, d), d), j))
  }

  lemma OneStep(m: Meaning, g: Cfg, c: Config, j: nat)
    ensures Run(m, g, c, [j]) == Step(m, g, c, j)
  {
    var n := Step(m, g, c, j);
    assert [j][1..] == [];
    assert n.Some? ==> Run(m, g, n.value, []) == n;
  }

  lemma StepTells(m: Meaning, g: Cfg, i: nat, s: Store, d: Store, j: nat)
    requires i < |g.edges| && MovablePast(g, i) && NamesApart(g) && g.edges[i].dst == g.start
    requires !SameStep(m, g, i, s, d, j)
    ensures !SameOutside(g, Moved(g, i), g.start)
  {
    var b := g.start;
    RunsAsSet(m, g, i, s, d, [j]);
    OneStep(m, g, Config(b, s, d), j);
    OneStep(m, g, Config(b, SetIn(m, g, i, s, d), d), j);
    assert Outside(b, Run(m, g, Config(b, s, d), [j])) != Outside(b, Run(m, Moved(g, i), Config(b, s, d), [j]));
  }

  // ---------------------------------------------------------------- a meaning in which every name shows

  function Abs(n: int): nat {
    if n < 0 then -n else n
  }

  /** Operations grow with their operands. */
  ghost function Sizes(): Meaning {
    Meaning((op, x, y) => 1 + Abs(x) + Abs(y), (id, s: Store, d: Store) => (s, d))
  }

  /** The same, but for one operation on one pair of operands. */
  ghost function Except(op: int, x: int, y: int): Meaning {
    Meaning((f, v, w) => if f == op && v == x && w == y then 0 else 1 + Abs(v) + Abs(w),
            (id, s: Store, d: Store) => (s, d))
  }

  /** The symbols are larger in `s` than in `s'`, and all else is the same. */
  ghost predicate Larger(xs: set<Name>, s: Store, s': Store) {
    && (forall x :: x in xs ==> Abs(Get(s, x)) > Abs(Get(s', x)))
    && (forall x :: x !in xs ==> Get(s, x) == Get(s', x))
  }

  lemma {:induction false} LargerShows(arrays: set<Name>, xs: set<Name>, e: Expr, s: Store, s': Store, d: Store)
    requires xs !! arrays && Larger(xs, s, s')
    ensures var v, v' := Eval(Sizes(), arrays, e, s, d), Eval(Sizes(), arrays, e, s', d);
            Abs(v) >= Abs(v') && if Free(e) !! xs then v == v' else Abs(v) > Abs(v')
  {
    match e
    case Op(op, l, r) =>
      LargerShows(arrays, xs, l, s, s', d);
      LargerShows(arrays, xs, r, s, s', d);
    case _ =>
  }

  /** Expressions worth less than the exceptional operation do not contain it. */
  lemma {:induction false} BelowException(arrays: set<Name>, e: Expr, s: Store, d: Store, op: int, x: int, y: int)
    requires Abs(Eval(Sizes(), arrays, e, s, d)) < 1 + Abs(x) + Abs(y)
    ensures Eval(Except(op, x, y), arrays, e, s, d) == Eval(Sizes(), arrays, e, s, d)
  {
    match e
    case Op(f, l, r) =>
      BelowException(arrays, l, s, d, op, x, y);
      BelowException(arrays, r, s, d, op, x, y);
    case _ =>
  }

  /** Stores in which the expression does not give 0. */
  lemma NonzeroStores(arrays: set<Name>, e: Expr) returns (s: Store, d: Store)
    requires e != Const(0)
    ensures Eval(Sizes(), arrays, e, s, d) != 0
    ensures e.Ref? && e.x !in arrays ==> Get(s, e.x) == 1
  {
    s, d := map[], map[];
    if e.Ref? {
      s, d := map[e.x := 1], map[e.x := 1];
    }
  }

  /** Some program state lets the run take the edge exactly when what its condition comes to is not the constant 0. */
  lemma CanBeTakenIff(g: Cfg, j: nat)
    requires j < |g.edges| && IsState(g, g.edges[j].src)
    ensures CanBeTaken(g, j) <==> exists m, s, d :: Step(m, g, Config(g.edges[j].src, s, d), j).Some?
  {
    var b, cond := g.edges[j].src, g.edges[j].cond;
    if CanBeTaken(g, j) {
      var s, d := NonzeroStores(g.arrays, if cond.Some? then Behind(g, b, cond.value) else Const(1));
      LeaveValues(Sizes(), g, b, s, d);
      assert Step(Sizes(), g, Config(b, s, d), j).Some?;
    }
    if m, s, d :| Step(m, g, Config(b, s, d), j).Some? {
      LeaveValues(m, g, b, s, d);
    }
  }

  /** Stores in which the symbols are larger than their values. */
  lemma Enlarge(arrays: set<Name>, values: map<Name, Expr>, s0: Store, d: Store) returns (s: Store)
    requires Closed(arrays, values)
    ensures Larger(values.Keys, s, Assign(Sizes(), arrays, values, s, d)) && values.Keys <= s.Keys
    ensures forall x :: x !in values ==> Get(s, x) == Get(s0, x)
  {
    var m := Sizes();
    s := s0 + map x | x in values :: 1 + Abs(Eval(m, arrays, values[x], s0, d)) as int;
    forall x | x in values ensures Eval(m, arrays, values[x], s, d) == Eval(m, arrays, values[x], s0, d) {
      EvalAgree(m, arrays, values[x], s, d, s0, d);
    }
  }

  /** From which the edge is taken, too. */
  lemma TellingStores(g: Cfg, i: nat, j: nat) returns (s: Store, d: Store)
    requires i < |g.edges| && MovablePast(g, i) && NamesApart(g)
    requires j < |g.edges| && g.edges[j].src == g.edges[i].dst && CanBeTaken(g, j)
    ensures Step(Sizes(), g, Config(g.edges[i].dst, s, d), j).Some?
    ensures Larger(g.edges[i].assigns.Keys, s, SetIn(Sizes(), g, i, s, d)) && g.edges[i].assigns.Keys <= s.Keys
  {
    var b, values, cond := g.edges[i].dst, g.edges[i].assigns, g.edges[j].cond;
    var test := if cond.Some? then Behind(g, b, cond.value) else Const(1);
    var s0;
    s0, d := NonzeroStores(g.arrays, test);
    s := Enlarge(g.arrays, values, s0, d);
    assert Larger(values.Keys, s, SetIn(Sizes(), g, i, s, d));
    StillNonzero(g.arrays, values.Keys, test, s0, s, SetIn(Sizes(), g, i, s, d), d);
    Taken(Sizes(), g, j, s, d);
  }

  lemma StillNonzero(arrays: set<Name>, xs: set<Name>, e: Expr, s0: Store, s: Store, s': Store, d: Store)
    requires Eval(Sizes(), arrays, e, s0, d) != 0 && Larger(xs, s, s')
    requires forall x :: x !in xs ==> Get(s, x) == Get(s0, x)
    ensures Eval(Sizes(), arrays, e, s, d) != 0
  {
  }

  lemma Taken(m: Meaning, g: Cfg, j: nat, s: Store, d: Store)
    requires j < |g.edges| && IsState(g, g.edges[j].src)
    requires var e := g.edges[j];
             e.cond.Some? ==> Eval(m, g.arrays, Behind(g, e.src, e.cond.value), s, d) != 0
    ensures Step(m, g, Config(g.edges[j].src, s, d), j).Some?
  {
    LeaveValues(m, g, g.edges[j].src, s, d);
  }

  // ---------------------------------------------------------------- what tells

  /** A write that depends on a symbol, or an edge that leaves one alone or sets something that depends on one. */
  lemma ValueTells(g: Cfg, i: nat, j: nat)
    requires i < |g.edges| && MovablePast(g, i) && NamesApart(g) && g.edges[i].dst == g.start
    requires j < |g.edges| && g.edges[j].src == g.start && CanBeTaken(g, j)
    requires var xs := g.edges[i].assigns.Keys;
      || !WritesApart(g, g.start, xs)
      || (j != i && !(xs <= g.edges[j].assigns.Keys &&
           forall x :: x in g.edges[j].assigns ==> Free(Behind(g, g.start, g.edges[j].assigns[x])) !! xs))
    ensures !SameOutside(g, Moved(g, i), g.start)
  {
    var m, b, xs, e := Sizes(), g.start, g.edges[i].assigns.Keys, g.edges[j];
    var s, d := TellingStores(g, i, j);
    var s' := SetIn(m, g, i, s, d);
    var n, n' := Step(m, g, Config(b, s, d), j), Step(m, g, Config(b, s', d), j);
    LeaveValues(m, g, b, s, d);
    LeaveValues(m, g, b, s', d);
    if n'.Some? {
      if !WritesApart(g, b, xs) {
        var t :| t in Written(g, b) && !(Free(Written(g, b)[t]) !! xs);
        LargerShows(g.arrays, xs, Written(g, b)[t], s, s', d);
        assert n.value.data[t] != n'.value.data[t];
      } else if x :| x in xs && x !in e.assigns {
        assert n.value.syms[x] == s[x] && n'.value.syms[x] == s'[x];
      } else {
        var x :| x in e.assigns && !(Free(Behind(g, b, e.assigns[x])) !! xs);
        LargerShows(g.arrays, xs, Behind(g, b, e.assigns[x]), s, s', d);
        assert n.value.syms[x] != n'.value.syms[x];
      }
    }
    StepTells(m, g, i, s, d, j);
  }

  /** A test that depends on a symbol. */
  lemma TestTells(g: Cfg, i: nat, j: nat)
    requires i < |g.edges| && MovablePast(g, i) && NamesApart(g) && g.edges[i].dst == g.start
    requires j < |g.edges| && g.edges[j].src == g.start && CanBeTaken(g, j) && g.edges[j].cond.Some?
    requires !(Free(Behind(g, g.start, g.edges[j].cond.value)) !! g.edges[i].assigns.Keys)
    ensures !SameOutside(g, Moved(g, i), g.start)
  {
    var b, values, test := g.start, g.edges[i].assigns, Behind(g, g.start, g.edges[j].cond.value);
    var m, s, d;
    if test.Op? {
      m, s, d := OperationTells(g, i, j, test);
    } else {
      m, s, d := SymbolTells(g, i, test.x);
    }
    LeaveValues(m, g, b, s, d);
    LeaveValues(m, g, b, SetIn(m, g, i, s, d), d);
    StepTells(m, g, i, s, d, j);
  }

  /** The test gives 0 only with the symbols as they are, or only with the symbols set. */
  ghost predicate TestDiffers(m: Meaning, g: Cfg, i: nat, test: Expr, s: Store, d: Store)
    requires i < |g.edges|
  {
    (Eval(m, g.arrays, test, s, d) == 0) != (Eval(m, g.arrays, test, SetIn(m, g, i, s, d), d) == 0)
  }

  /** A meaning that tells the stores apart by the test, and differs from `Sizes` on nothing smaller. */
  lemma OperationShows(arrays: set<Name>, xs: set<Name>, test: Expr, s: Store, s': Store, d: Store)
    returns (m: Meaning)
    requires test.Op? && xs !! arrays && Larger(xs, s, s') && !(Free(test) !! xs)
    ensures Eval(m, arrays, test, s, d) == 0 && Eval(m, arrays, test, s', d) != 0
    ensures forall e, t :: Abs(Eval(Sizes(), arrays, e, t, d)) < Abs(Eval(Sizes(), arrays, test, s, d)) ==>
              Eval(m, arrays, e, t, d) == Eval(Sizes(), arrays, e, t, d)
  {
    var x, y := Eval(Sizes(), arrays, test.left, s, d), Eval(Sizes(), arrays, test.right, s, d);
    m := Except(test.op, x, y);
    LargerShows(arrays, xs, test.left, s, s', d);
    LargerShows(arrays, xs, test.right, s, s', d);
    forall e, t | Abs(Eval(Sizes(), arrays, e, t, d)) < Abs(Eval(Sizes(), arrays, test, s, d))
      ensures Eval(m, arrays, e, t, d) == Eval(Sizes(), arrays, e, t, d)
    {
      BelowException(arrays, e, t, d, test.op, x, y);
    }
  }

  lemma {:induction false} FreeBelow(arrays: set<Name>, e: Expr, x: Name, s: Store, d: Store)
    requires x in Free(e) && x !in arrays
    ensures Abs(Get(s, x)) <= Abs(Eval(Sizes(), arrays, e, s, d))
  {
    if e.Op? {
      FreeBelow(arrays, if x in Free(e.left) then e.left else e.right, x, s, d);
    }
  }

  lemma OperationTells(g: Cfg, i: nat, j: nat, test: Expr) returns (m: Meaning, s: Store, d: Store)
    requires i < |g.edges| && MovablePast(g, i) && NamesApart(g)
    requires j < |g.edges| && g.edges[j].src == g.edges[i].dst && CanBeTaken(g, j)
    requires test.Op? && !(Free(test) !! g.edges[i].assigns.Keys)
    ensures TestDiffers(m, g, i, test, s, d)
  {
    var arrays, values := g.arrays, g.edges[i].assigns;
    s, d := TellingStores(g, i, j);
    var s' := SetIn(Sizes(), g, i, s, d);
    m := OperationShows(arrays, values.Keys, test, s, s', d);
    forall x | x in Free(test) && x !in arrays ensures Get(SetIn(m, g, i, s, d), x) == Get(s', x) {
      FreeBelow(arrays, test, x, s, d);
      if x in values {
        assert s'[x] == Eval(Sizes(), arrays, values[x], s, d);
      }
    }
    EvalAgree(m, arrays, test, SetIn(m, g, i, s, d), d, s', d);
  }

  lemma SymbolTells(g: Cfg, i: nat, x: Name) returns (m: Meaning, s: Store, d: Store)
    requires i < |g.edges| && MovablePast(g, i) && NamesApart(g) && x in g.edges[i].assigns
    ensures TestDiffers(m, g, i, Ref(x), s, d)
  {
    var value := g.edges[i].assigns[x];
    m, d := Sizes(), map[];
    var v := Eval(m, g.arrays, value, map[], d);
    s := map[x := if v == 0 then 1 else 0];
    EvalAgree(m, g.arrays, value, s, d, map[], d);
  }

  // ---------------------------------------------------------------- and what does not

  lemma ApartAgree(m: Meaning, g: Cfg, i: nat, e: Expr, s: Store, d: Store)
    requires i < |g.edges| && Free(e) !! g.edges[i].assigns.Keys
    ensures Eval(m, g.arrays, e, s, d) == Eval(m, g.arrays, e, SetIn(m, g, i, s, d), d)
  {
    EvalAgree(m, g.arrays, e, s, d, SetIn(m, g, i, s, d), d);
  }

  lemma DataAgree(m: Meaning, g: Cfg, i: nat, s: Store, d: Store)
    requires i < |g.edges| && IsState(g, g.edges[i].dst)
    requires WritesApart(g, g.edges[i].dst, g.edges[i].assigns.Keys)
    ensures var b := g.edges[i].dst;
            Leave(m, g, Config(b, s, d)).1 == Leave(m, g, Config(b, SetIn(m, g, i, s, d), d)).1
  {
    var b, s' := g.edges[i].dst, SetIn(m, g, i, s, d);
    LeaveValues(m, g, b, s, d);
    LeaveValues(m, g, b, s', d);
    forall t | t in Written(g, b)
      ensures Eval(m, g.arrays, Written(g, b)[t], s, d) == Eval(m, g.arrays, Written(g, b)[t], s', d)
    {
      ApartAgree(m, g, i, Written(g, b)[t], s, d);
    }
  }

  lemma BehindAgree(m: Meaning, g: Cfg, i: nat, e: Expr, s: Store, d: Store)
    requires i < |g.edges| && IsState(g, g.edges[i].dst)
    requires WritesApart(g, g.edges[i].dst, g.edges[i].assigns.Keys)
    requires Free(Behind(g, g.edges[i].dst, e)) !! g.edges[i].assigns.Keys
    ensures var data := Leave(m, g, Config(g.edges[i].dst, s, d)).1;
            Eval(m, g.arrays, e, s, data) == Eval(m, g.arrays, e, SetIn(m, g, i, s, d), data)
  {
    DataAgree(m, g, i, s, d);
    LeaveValues(m, g, g.edges[i].dst, s, d);
    LeaveValues(m, g, g.edges[i].dst, SetIn(m, g, i, s, d), d);
    ApartAgree(m, g, i, Behind(g, g.edges[i].dst, e), s, d);
  }

  lemma SetsAgree(m: Meaning, g: Cfg, i: nat, s: Store, d: Store, j: nat)
    requires i < |g.edges| && IsState(g, g.edges[i].dst)
    requires WritesApart(g, g.edges[i].dst, g.edges[i].assigns.Keys)
    requires j < |g.edges| && g.edges[j].src == g.edges[i].dst && SetsApart(g, j, g.edges[i].assigns.Keys)
    ensures var assigns, data := g.edges[j].assigns, Leave(m, g, Config(g.edges[i].dst, s, d)).1;
            Assign(m, g.arrays, assigns, s, data) == Assign(m, g.arrays, assigns, SetIn(m, g, i, s, d), data)
  {
    var assigns := g.edges[j].assigns;
    forall x | x in assigns
      ensures var data := Leave(m, g, Config(g.edges[i].dst, s, d)).1;
              Eval(m, g.arrays, assigns[x], s, data) == Eval(m, g.arrays, assigns[x], SetIn(m, g, i, s, d), data)
    {
      BehindAgree(m, g, i, assigns[x], s, d);
    }
  }

  lemma NotTaken(m: Meaning, g: Cfg, j: nat, s: Store, d: Store)
    requires j < |g.edges| && IsState(g, g.edges[j].src) && !CanBeTaken(g, j)
    ensures Step(m, g, Config(g.edges[j].src, s, d), j).None?
  {
    LeaveValues(m, g, g.edges[j].src, s, d);
  }

  lemma StepsAgree(m: Meaning, g: Cfg, i: nat, s: Store, d: Store, j: nat)
    requires i < |g.edges| && MovablePast(g, i) && NamesApart(g) && Unread(g, i)
    ensures var b := g.edges[i].dst;
            Step(m, g, Config(b, s, d), j) == Step(m, g, Config(b, SetIn(m, g, i, s, d), d), j)
  {
    var b, s' := g.edges[i].dst, SetIn(m, g, i, s, d);
    if j < |g.edges| && g.edges[j].src == b {
      if CanBeTaken(g, j) {
        var e, data := g.edges[j], Leave(m, g, Config(b, s, d)).1;
        DataAgree(m, g, i, s, d);
        if j == i {
          AssignTwice(m, g.arrays, e.assigns, s, d, data);
        } else {
          if e.cond.Some? {
            BehindAgree(m, g, i, e.cond.value, s, d);
          }
          SetsAgree(m, g, i, s, d, j);
        }
      } else {
        NotTaken(m, g, j, s, d);
        NotTaken(m, g, j, s', d);
      }
    }
  }

  lemma UnreadKeepsRuns(g: Cfg, i: nat)
    requires i < |g.edges| && MovablePast(g, i) && NamesApart(g) && g.edges[i].dst == g.start && Unread(g, i)
    ensures SameOutside(g, Moved(g, i), g.start)
  {
    forall m, s, d, path
      ensures Outside(g.start, Run(m, g, Config(g.start, s, d), path)) ==
              Outside(g.start, Run(m, Moved(g, i), Config(g.start, s, d), path))
    {
      RunsAsSet(m, g, i, s, d, path);
      if path != [] {
        StepsAgree(m, g, i, s, d, path[0]);
      }
    }
  }

  /** The rewrite keeps every run, symbols included, exactly when the state is not the start block, or neither what it
      writes nor an edge that can be taken out of it tells whether the symbols are set. */
  lemma MoveSafeIff(g: Cfg, i: nat)
    requires i < |g.edges| && MovablePast(g, i) && NamesApart(g)
    ensures SameOutside(g, Moved(g, i), g.edges[i].dst) <==> g.edges[i].dst != g.start || Unread(g, i)
  {
    if g.edges[i].dst != g.start {
      MoveKeepsSymbols(g, i);
    } else if Unread(g, i) {
      UnreadKeepsRuns(g, i);
    } else {
      var b, xs := g.start, g.edges[i].assigns.Keys;
      var j :| 0 <= j < |g.edges| && g.edges[j].src == b && CanBeTaken(g, j) &&
               !(WritesApart(g, b, xs) && (j != i ==> SetsApart(g, j, xs)));
      if g.edges[j].cond.Some? && !(Free(Behind(g, b, g.edges[j].cond.value)) !! xs) {
        TestTells(g, i, j);
      } else {
        ValueTells(g, i, j);
      }
    }
  }
}
