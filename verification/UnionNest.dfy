/** Two stencil arms as one guarded nest: the check that two loop nests are the arms of one stencil, the nest laid out
    over the union of their ranges, and what that nest runs. */
module UnionNest {

  // ---------------------------------------------------------------- bounds and their values

  /** What a rebase leaves alone in a bound: no text, a number, a name, or a component `object%part`. */
  datatype Base = Nothing | Digits(n: nat) | Plain(name: string) | Component(whole: string, part: string)

  datatype Bound = Literal(n: int) | Sum(base: Base, off: int)

  datatype Bounds = Bounds(lo: Bound, hi: Bound)

  /** Which object names stand for the same object. */
  type Aliases = map<string, string>

  datatype Env = Env(vars: map<string, int>, parts: map<(string, string), int>) {
    function Part(o: string, p: string): int { if (o, p) in parts then parts[(o, p)] else 0 }
    function Var(v: string): int { if v in vars then vars[v] else 0 }
    function Set(v: string, x: int): Env { Env(vars[v := x], parts) }
    ghost predicate Respects(aliases: Aliases) {
      forall o, p :: o in aliases ==> Part(o, p) == Part(aliases[o], p)
    }
  }

  function BaseValue(env: Env, b: Base): int {
    match b
    case Nothing => 0
    case Digits(n) => n
    case Plain(name) => env.Var(name)
    case Component(o, p) => env.Part(o, p)
  }

  function Value(env: Env, b: Bound): int {
    match b
    case Literal(n) => n
    case Sum(base, off) => BaseValue(env, base) + off
  }

  /** `_base_offset`: a sign and digits at the end of the text are the offset, so a negative number has no base. */
  function BaseOffset(b: Bound): (Base, int) {
    match b
    case Literal(n) => if n < 0 then (Nothing, n) else (Digits(n), 0)
    case Sum(base, off) => (base, off)
  }

  function Canonical(aliases: Aliases, b: Base): Base {
    if b.Component? && b.whole in aliases then Component(aliases[b.whole], b.part) else b
  }

  function CanonicalBound(aliases: Aliases, b: Bound): Bound {
    match b
    case Literal(_) => b
    case Sum(base, off) => Sum(Canonical(aliases, base), off)
  }

  lemma CanonicalValue(aliases: Aliases, b: Base, env: Env)
    requires env.Respects(aliases)
    ensures BaseValue(env, Canonical(aliases, b)) == BaseValue(env, b)
  {}

  lemma SetRespects(aliases: Aliases, env: Env, v: string, x: int)
    requires env.Respects(aliases)
    ensures env.Set(v, x).Respects(aliases)
  {
    assert forall o, p :: env.Set(v, x).Part(o, p) == env.Part(o, p);
  }

  // ---------------------------------------------------------------- `union_range` and `check_nest_pair`

  datatype Refusal = Gap | OtherBases | NotMirror | OtherDepth | OtherNest | NoSuchAxis

  datatype Result<T> = Ok(value: T) | Refused(why: Refusal)

  predicate AllLiteral(left: Bounds, right: Bounds) {
    left.lo.Literal? && left.hi.Literal? && right.lo.Literal? && right.hi.Literal?
  }

  function Shift(a: Bound, b: Bound): int {
    BaseOffset(a).1 - BaseOffset(b).1
  }

  function UnionRange(left: Bounds, right: Bounds, aliases: Aliases): Result<Bounds> {
    if AllLiteral(left, right) then
      if left.hi.n + 1 < right.lo.n || right.hi.n + 1 < left.lo.n then Refused(Gap)
      else Ok(if left.lo.n <= right.lo.n then left else right)
    else if Canonical(aliases, BaseOffset(left.lo).0) != Canonical(aliases, BaseOffset(right.lo).0)
         || Canonical(aliases, BaseOffset(left.hi).0) != Canonical(aliases, BaseOffset(right.hi).0) then
      Refused(OtherBases)
    else
      var lo, hi := Shift(left.lo, right.lo), Shift(left.hi, right.hi);
      if (lo != 1 && lo != -1) || (hi != 1 && hi != -1) || lo != hi then Refused(NotMirror)
      else Ok(if lo > 0 then Bounds(right.lo, left.hi) else Bounds(left.lo, right.hi))
  }

  predicate SameBounds(aliases: Aliases, a: Bounds, b: Bounds) {
    CanonicalBound(aliases, a.lo) == CanonicalBound(aliases, b.lo) &&
        CanonicalBound(aliases, a.hi) == CanonicalBound(aliases, b.hi)
  }

  function CheckNestPair(axis: nat, left: seq<Bounds>, right: seq<Bounds>, aliases: Aliases): Result<Bounds> {
    if |left| != |right| then Refused(OtherDepth)
    else if exists i :: 0 <= i < |left| && i != axis && !SameBounds(aliases, left[i], right[i]) then Refused(OtherNest)
    else if axis >= |left| then Refused(NoSuchAxis)
    else UnionRange(left[axis], right[axis], aliases)
  }

  lemma ShiftedValue(aliases: Aliases, a: Bound, b: Bound, env: Env)
    requires Canonical(aliases, BaseOffset(a).0) == Canonical(aliases, BaseOffset(b).0) && env.Respects(aliases)
    ensures Value(env, a) == Value(env, b) + Shift(a, b)
  {
    CanonicalValue(aliases, BaseOffset(a).0, env);
    CanonicalValue(aliases, BaseOffset(b).0, env);
  }

  /** The arms of an accepted symbolic pair are one cell apart, whatever the bases are worth. */
  lemma Mirror(left: Bounds, right: Bounds, aliases: Aliases, u: Bounds, env: Env)
    requires !AllLiteral(left, right) && UnionRange(left, right, aliases) == Ok(u) && env.Respects(aliases)
    ensures var d := if Shift(left.lo, right.lo) > 0 then 1 else -1;
            && Value(env, left.lo) == Value(env, right.lo) + d && Value(env, left.hi) == Value(env, right.hi) + d
            && Value(env, u.lo) == (if d > 0 then Value(env, right.lo) else Value(env, left.lo))
            && Value(env, u.hi) == (if d > 0 then Value(env, left.hi) else Value(env, right.hi))
  {
    ShiftedValue(aliases, left.lo, right.lo, env);
    ShiftedValue(aliases, left.hi, right.hi, env);
  }

  // ---------------------------------------------------------------- what is accepted, and what refused

  /** Each name in the relation stands for a representative, itself in the relation. */
  ghost predicate Representatives(aliases: Aliases) {
    forall o :: o in aliases ==> aliases[o] in aliases && aliases[aliases[o]] == aliases[o]
  }

  ghost predicate Named(b: Base) {
    b.Plain? || b.Component?
  }

  /** Both bounds name something, or neither does and they are alike. */
  ghost predicate NamedAlike(a: Bound, b: Bound) {
    (Named(BaseOffset(a).0) && Named(BaseOffset(b).0)) || BaseOffset(a).0 == BaseOffset(b).0
  }

  /** `a` is `d` more than `b`, whatever the names are worth. */
  ghost predicate Apart(aliases: Aliases, a: Bound, b: Bound, d: int) {
    forall env: Env :: env.Respects(aliases) ==> Value(env, a) == Value(env, b) + d
  }

  /** The component, by all the names of its object. */
  ghost function SameParts(aliases: Aliases, o: string, p: string): set<(string, string)> {
    {(o, p)} + set q | q in aliases && aliases[q] == o :: (q, p)
  }

  /** Values where one base, and what stands for it, is worth 1, and all others 0. */
  ghost function Telling(aliases: Aliases, c: Base): Env {
    match c
    case Plain(v) => Env(map[v := 1], map[])
    case Component(o, p) => Env(map[], map k | k in SameParts(aliases, o, p) :: 1)
    case _ => Env(map[], map[])
  }

  lemma TellingRespects(aliases: Aliases, b: Base)
    requires Representatives(aliases)
    ensures Telling(aliases, Canonical(aliases, b)).Respects(aliases)
  {
  }

  lemma TellingValue(aliases: Aliases, b: Base, other: Base)
    requires Representatives(aliases) && Named(b) && Named(other)
    ensures BaseValue(Telling(aliases, Canonical(aliases, b)), other) ==
            if Canonical(aliases, other) == Canonical(aliases, b) then 1 else 0
  {
  }

  lemma OffsetValue(b: Bound, env: Env)
    ensures Value(env, b) == BaseValue(env, BaseOffset(b).0) + BaseOffset(b).1
  {
  }

  /** Comparing bases and offsets decides whether two ends are `d` apart. */
  lemma ApartIff(aliases: Aliases, a: Bound, b: Bound, d: int)
    requires Representatives(aliases)
    ensures Canonical(aliases, BaseOffset(a).0) == Canonical(aliases, BaseOffset(b).0) && Shift(a, b) == d <==>
            Apart(aliases, a, b, d) && NamedAlike(a, b)
  {
    var x, y := BaseOffset(a).0, BaseOffset(b).0;
    if Canonical(aliases, x) == Canonical(aliases, y) && Shift(a, b) == d {
      forall env: Env | env.Respects(aliases) ensures Value(env, a) == Value(env, b) + d {
        ShiftedValue(aliases, a, b, env);
      }
    }
    if Apart(aliases, a, b, d) && NamedAlike(a, b) {
      var none := Env(map[], map[]);
      assert none.Respects(aliases);
      OffsetValue(a, none);
      OffsetValue(b, none);
      if x != y {
        var env := Telling(aliases, Canonical(aliases, x));
        TellingRespects(aliases, x);
        TellingValue(aliases, x, x);
        TellingValue(aliases, x, y);
        OffsetValue(a, env);
        OffsetValue(b, env);
      }
    }
  }

  /** So are the ends of two ranges. */
  ghost predicate RangesApart(aliases: Aliases, left: Bounds, right: Bounds, d: int) {
    Apart(aliases, left.lo, right.lo, d) && Apart(aliases, left.hi, right.hi, d)
  }

  /** A symbolic pair is accepted exactly when both ends are one cell apart in the same direction, whatever the bases
      are worth (two numbers at one end must be one number). */
  lemma UnionAcceptedIff(left: Bounds, right: Bounds, aliases: Aliases)
    requires Representatives(aliases) && !AllLiteral(left, right)
    ensures UnionRange(left, right, aliases).Ok? <==>
            NamedAlike(left.lo, right.lo) && NamedAlike(left.hi, right.hi) &&
            (RangesApart(aliases, left, right, 1) || RangesApart(aliases, left, right, -1))
  {
    ApartIff(aliases, left.lo, right.lo, 1);
    ApartIff(aliases, left.hi, right.hi, 1);
    ApartIff(aliases, left.lo, right.lo, -1);
    ApartIff(aliases, left.hi, right.hi, -1);
  }

  ghost predicate Between(a: int, x: int, b: int) {
    a < x < b
  }

  /** A literal pair is refused exactly when a cell lies between the two arms. */
  lemma GapIff(left: Bounds, right: Bounds, aliases: Aliases)
    requires AllLiteral(left, right)
    ensures UnionRange(left, right, aliases).Refused? <==>
            exists x :: Between(left.hi.n, x, right.lo.n) || Between(right.hi.n, x, left.lo.n)
  {
    assert left.hi.n + 1 < right.lo.n ==> Between(left.hi.n, left.hi.n + 1, right.lo.n);
    assert right.hi.n + 1 < left.lo.n ==> Between(right.hi.n, right.hi.n + 1, left.lo.n);
  }

  /** Equal spelling: a literal is only like itself. */
  ghost predicate SpelledAlike(a: Bound, b: Bound) {
    a == b || (a.Sum? && b.Sum? && ((Named(a.base) && Named(b.base)) || a.base == b.base))
  }

  lemma SameBoundIff(aliases: Aliases, a: Bound, b: Bound)
    requires Representatives(aliases)
    ensures CanonicalBound(aliases, a) == CanonicalBound(aliases, b) <==>
            Apart(aliases, a, b, 0) && SpelledAlike(a, b)
  {
    ApartIff(aliases, a, b, 0);
  }

  /** Two nests are accepted exactly when they have the axis, agree on every other one, and their ranges on it are
      accepted. */
  lemma NestAcceptedIff(axis: nat, left: seq<Bounds>, right: seq<Bounds>, aliases: Aliases)
    requires Representatives(aliases)
    ensures CheckNestPair(axis, left, right, aliases).Ok? <==>
            && |left| == |right| && axis < |left| && UnionRange(left[axis], right[axis], aliases).Ok?
            && forall i :: 0 <= i < |left| && i != axis ==> AlikeOn(aliases, left[i], right[i])
  {
    if |left| == |right| {
      forall i | 0 <= i < |left|
        ensures SameBounds(aliases, left[i], right[i]) <==> AlikeOn(aliases, left[i], right[i])
      {
        SameBoundIff(aliases, left[i].lo, right[i].lo);
        SameBoundIff(aliases, left[i].hi, right[i].hi);
      }
    }
  }

  /** The same range, whatever the bases are worth. */
  ghost predicate AlikeOn(aliases: Aliases, a: Bounds, b: Bounds) {
    && Apart(aliases, a.lo, b.lo, 0) && SpelledAlike(a.lo, b.lo)
    && Apart(aliases, a.hi, b.hi, 0) && SpelledAlike(a.hi, b.hi)
  }

  // ---------------------------------------------------------------- programs, their text and their runs

  datatype Side = Left | Right

  datatype Guard = AtLeast(b: Bound) | AtMost(b: Bound)

  datatype Code =
    | Nil
    | Say(side: Side, text: string, rest: Code)
    | If(v: string, guard: Guard, body: Code, rest: Code)
    | Do(v: string, range: Bounds, body: Code, rest: Code)

  datatype Line = SayLine(side: Side, text: string) | IfLine(v: string, guard: Guard) | EndIf | DoLine(v: string,
                          range: Bounds) | EndDo

  /** The lines of a program, with those that follow it. */
  function LinesThen(c: Code, after: seq<Line>): seq<Line> {
    match c
    case Nil => after
    case Say(side, text, rest) => [SayLine(side, text)] + LinesThen(rest, after)
    case If(v, guard, body, rest) => [IfLine(v, guard)] + LinesThen(body, [EndIf] + LinesThen(rest, after))
    case Do(v, range, body, rest) => [DoLine(v, range)] + LinesThen(body, [EndDo] + LinesThen(rest, after))
  }

  function Lines(c: Code): seq<Line> {
    LinesThen(c, [])
  }

  lemma {:induction false} LinesAppend(c: Code, s: seq<Line>, t: seq<Line>)
    ensures LinesThen(c, s + t) == LinesThen(c, s) + t
    decreases c
  {
    match c
    case Nil =>
    case Say(_, _, rest) => LinesAppend(rest, s, t);
    case If(_, _, body, rest) =>
      LinesAppend(rest, s, t);
      assert [EndIf] + LinesThen(rest, s + t) == ([EndIf] + LinesThen(rest, s)) + t;
      LinesAppend(body, [EndIf] + LinesThen(rest, s), t);
    case Do(_, _, body, rest) =>
      LinesAppend(rest, s, t);
      assert [EndDo] + LinesThen(rest, s + t) == ([EndDo] + LinesThen(rest, s)) + t;
      LinesAppend(body, [EndDo] + LinesThen(rest, s), t);
  }

  predicate Closed(s: seq<Line>) {
    s == [] || s[0].EndIf? || s[0].EndDo?
  }

  lemma SameTails(x: Line, s: seq<Line>, y: Line, t: seq<Line>)
    requires [x] + s == [y] + t
    ensures x == y && s == t
  {
    assert ([x] + s)[0] == x && ([x] + s)[1..] == s;
    assert ([y] + t)[0] == y && ([y] + t)[1..] == t;
  }

  /** The text determines the program. */
  lemma {:induction false} LinesInjective(a: Code, b: Code, s: seq<Line>, t: seq<Line>)
    requires LinesThen(a, s) == LinesThen(b, t) && Closed(s) && Closed(t)
    ensures a == b && s == t
    decreases a
  {
    SameKind(a, b, s, t);
    match a
    case Nil =>
    case Say(side, text, rest) =>
      SameTails(SayLine(side, text), LinesThen(rest, s), SayLine(b.side, b.text), LinesThen(b.rest, t));
      LinesInjective(rest, b.rest, s, t);
    case If(v, guard, body, rest) =>
      var more, more' := LinesThen(rest, s), LinesThen(b.rest, t);
      SameTails(IfLine(v, guard), LinesThen(body, [EndIf] + more), IfLine(b.v, b.guard),
          LinesThen(b.body, [EndIf] + more'));
      LinesInjective(body, b.body, [EndIf] + more, [EndIf] + more');
      SameTails(EndIf, more, EndIf, more');
      LinesInjective(rest, b.rest, s, t);
    case Do(v, range, body, rest) =>
      var more, more' := LinesThen(rest, s), LinesThen(b.rest, t);
      SameTails(DoLine(v, range), LinesThen(body, [EndDo] + more), DoLine(b.v, b.range),
          LinesThen(b.body, [EndDo] + more'));
      LinesInjective(body, b.body, [EndDo] + more, [EndDo] + more');
      SameTails(EndDo, more, EndDo, more');
      LinesInjective(rest, b.rest, s, t);
  }

  lemma SameKind(a: Code, b: Code, s: seq<Line>, t: seq<Line>)
    requires LinesThen(a, s) == LinesThen(b, t) && Closed(s) && Closed(t)
    ensures a.Nil? == b.Nil? && a.Say? == b.Say? && a.If? == b.If?
  {
    assert !a.Nil? ==> LinesThen(a, s)[0] == Opener(a);
    assert !b.Nil? ==> LinesThen(b, t)[0] == Opener(b);
  }

  function Opener(c: Code): Line
    requires !c.Nil?
  {
    match c
    case Say(side, text, _) => SayLine(side, text)
    case If(v, guard, _, _) => IfLine(v, guard)
    case Do(v, range, _, _) => DoLine(v, range)
  }

  /** A statement run in a cell: the loop variables say which. */
  datatype Event = Event(side: Side, text: string, env: Env)

  predicate Holds(env: Env, v: string, g: Guard) {
    match g
    case AtLeast(b) => env.Var(v) >= Value(env, b)
    case AtMost(b) => env.Var(v) <= Value(env, b)
  }

  function Run(c: Code, env: Env): seq<Event>
    decreases c, 0, 0
  {
    match c
    case Nil => []
    case Say(side, text, rest) => [Event(side, text, env)] + Run(rest, env)
    case If(v, guard, body, rest) => (if Holds(env, v, guard) then Run(body, env) else []) + Run(rest, env)
    case Do(v, range, body, rest) => RunLoop(v, Value(env, range.lo), Value(env, range.hi), body, env) + Run(rest, env)
  }

  function RunLoop(v: string, lo: int, hi: int, body: Code, env: Env): seq<Event>
    decreases body, 1, hi - lo + 1
  {
    if lo > hi then [] else RunLoop(v, lo, hi - 1, body, env) + Run(body, env.Set(v, hi))
  }

  function Only(side: Side, es: seq<Event>): seq<Event> {
    if es == [] then []
    else Only(side, es[..|es| - 1]) + if es[|es| - 1].side == side then [es[|es| - 1]] else []
  }

  lemma {:induction false} OnlyAppend(side: Side, a: seq<Event>, b: seq<Event>)
    ensures Only(side, a + b) == Only(side, a) + Only(side, b)
    decreases |b|
  {
    if b == [] {
      assert a + b == a;
    } else {
      var n := |b| - 1;
      assert (a + b)[..|a + b| - 1] == a + b[..n];
      OnlyAppend(side, a, b[..n]);
    }
  }

  /** In one cell: this side's events are those of the other body, or none outside its range. */
  ghost predicate CellMatches(side: Side, v: string, body: Code, lo': int, hi': int, body': Code, env: Env, x: int) {
    Only(side, Run(body, env.Set(v, x))) == if lo' <= x <= hi' then Run(body', env.Set(v, x)) else []
  }

  lemma {:induction false} LoopClips(side: Side, v: string, lo: int, hi: int, body: Code, lo': int, hi': int,
                                     body': Code, env: Env)
    requires lo <= lo' && forall x :: lo <= x <= hi ==> CellMatches(side, v, body, lo', hi', body', env, x)
    ensures Only(side, RunLoop(v, lo, hi, body, env)) == RunLoop(v, lo', if hi < hi' then hi else hi', body', env)
    decreases hi - lo + 1
  {
    if lo <= hi {
      OnlyAppend(side, RunLoop(v, lo, hi - 1, body, env), Run(body, env.Set(v, hi)));
      LoopClips(side, v, lo, hi - 1, body, lo', hi', body', env);
      assert CellMatches(side, v, body, lo', hi', body', env, hi);
    }
  }

  /** A loop over a wider range, whose body leaves this side's events alone in its own range and makes none outside. */
  lemma LoopRestricts(side: Side, v: string, lo: int, hi: int, body: Code, lo': int, hi': int, body': Code, env: Env)
    requires lo <= lo' && (hi' <= hi || hi' < lo')
    requires forall x :: lo <= x <= hi ==> CellMatches(side, v, body, lo', hi', body', env, x)
    ensures Only(side, RunLoop(v, lo, hi, body, env)) == RunLoop(v, lo', hi', body', env)
  {
    LoopClips(side, v, lo, hi, body, lo', hi', body', env);
  }

  // ---------------------------------------------------------------- `union_arms` and `nest`

  function Stmts(side: Side, texts: seq<string>): Code {
    if texts == [] then Nil else Say(side, texts[0], Stmts(side, texts[1..]))
  }

  /** Two nests offered as the arms of one stencil. */
  datatype Arms = Arms(vars: seq<string>, axis: nat, left: seq<Bounds>, right: seq<Bounds>,
                       leftTexts: seq<string>, rightTexts: seq<string>, leftIsUpper: bool, aliases: Aliases)
  {
    predicate Shaped() { |left| == |vars| && axis < |vars| && |right| == |left| }

    function Own(side: Side): seq<Bounds> { if side == Left then left else right }

    function Body(side: Side): Code { Stmts(side, if side == Left then leftTexts else rightTexts) }

    /** The upper arm is held off the low end, the lower arm off the high end. */
    function GuardOf(side: Side): Guard
      requires Shaped()
    {
      if leftIsUpper == (side == Left) then AtLeast(Own(side)[axis].lo) else AtMost(Own(side)[axis].hi)
    }

    function Guarded(): Code
      requires Shaped()
    {
      If(vars[axis], GuardOf(Left), Body(Left), If(vars[axis], GuardOf(Right), Body(Right), Nil))
    }
  }

  function NestFrom(vars: seq<string>, bounds: seq<Bounds>, i: nat, body: Code): Code
    requires |vars| <= |bounds| && i <= |vars|
    decreases |vars| - i
  {
    if i == |vars| then body else Do(vars[i], bounds[i], NestFrom(vars, bounds, i + 1, body), Nil)
  }

  method UnionArms(a: Arms) returns (r: Result<seq<Line>>)
    requires a.Shaped()
    ensures var u := UnionRange(a.left[a.axis], a.right[a.axis], a.aliases);
            if u.Ok? then r == Ok(Lines(a.Guarded())) else r == Refused(u.why)
  {
    var u := UnionRange(a.left[a.axis], a.right[a.axis], a.aliases);
    if u.Refused? {
      return Refused(u.why);
    }
    var leftGuard, rightGuard := AtMost(a.left[a.axis].hi), AtLeast(a.right[a.axis].lo);
    if a.leftIsUpper {
      leftGuard, rightGuard := AtLeast(a.left[a.axis].lo), AtMost(a.right[a.axis].hi);
    }
    var out := [IfLine(a.vars[a.axis], leftGuard)];
    out := SayLines(out, Left, a.leftTexts);
    out := out + [EndIf, IfLine(a.vars[a.axis], rightGuard)];
    out := SayLines(out, Right, a.rightTexts);
    out := out + [EndIf];
    ArmLines(a);
    return Ok(out);
  }

  /** The two guarded blocks, one after the other. */
  lemma ArmLines(a: Arms)
    requires a.Shaped()
    ensures Lines(a.Guarded()) == ([IfLine(a.vars[a.axis], a.GuardOf(Left))] + Lines(a.Body(Left)) +
                                   [EndIf, IfLine(a.vars[a.axis], a.GuardOf(Right))]) + Lines(a.Body(Right)) + [EndIf]
  {
    var v := a.vars[a.axis];
    BlockLines(v, a.GuardOf(Right), a.Body(Right), Nil);
    BlockLines(v, a.GuardOf(Left), a.Body(Left), If(v, a.GuardOf(Right), a.Body(Right), Nil));
  }

  lemma BlockLines(v: string, g: Guard, body: Code, rest: Code)
    ensures Lines(If(v, g, body, rest)) == [IfLine(v, g)] + Lines(body) + [EndIf] + Lines(rest)
  {
    var more := [EndIf] + Lines(rest);
    LinesAppend(body, [], more);
    assert [] + more == more;
  }

  method SayLines(before: seq<Line>, side: Side, texts: seq<string>) returns (out: seq<Line>)
    ensures out == before + Lines(Stmts(side, texts))
  {
    out := before;
    for k := 0 to |texts|
      invariant before + Lines(Stmts(side, texts)) == out + Lines(Stmts(side, texts[k..]))
    {
      out := out + [SayLine(side, texts[k])];
      assert texts[k..][1..] == texts[k + 1..];
    }
  }

  function Ends(n: nat): seq<Line> {
    if n == 0 then [] else [EndDo] + Ends(n - 1)
  }

  /** The openers, the body, and as many closers. */
  method Nest(vars: seq<string>, bounds: seq<Bounds>, body: Code) returns (out: seq<Line>)
    requires |vars| <= |bounds|
    ensures out == Lines(NestFrom(vars, bounds, 0, body))
  {
    ghost var whole := Lines(NestFrom(vars, bounds, 0, body));
    out := [];
    for i := 0 to |vars|
      invariant whole == out + LinesThen(NestFrom(vars, bounds, i, body), Ends(i))
    {
      OneLoop(vars, bounds, i, body);
      out := out + [DoLine(vars[i], bounds[i])];
    }
    BodyThen(body, Ends(|vars|));
    out := out + Lines(body);
    for i := 0 to |vars|
      invariant whole == out + Ends(|vars| - i)
    {
      out := out + [EndDo];
    }
  }

  lemma BodyThen(body: Code, after: seq<Line>)
    ensures LinesThen(body, after) == Lines(body) + after
  {
    LinesAppend(body, [], after);
    assert [] + after == after;
  }

  lemma OneLoop(vars: seq<string>, bounds: seq<Bounds>, i: nat, body: Code)
    requires |vars| <= |bounds| && i < |vars|
    ensures LinesThen(NestFrom(vars, bounds, i, body), Ends(i)) ==
            [DoLine(vars[i], bounds[i])] + LinesThen(NestFrom(vars, bounds, i + 1, body), Ends(i + 1))
  {}

  // ---------------------------------------------------------------- what the union nest runs

  predicate Names(b: Bound, v: string) {
    b == Sum(Plain(v), if b.Sum? then b.off else 0)
  }

  /** The arms the check accepts by their bases; the bounds on the difference axis name no variable of that loop or of
      a loop inside it, and no inner loop reuses the axis variable. */
  ghost predicate Accepted(a: Arms, u: Bounds) {
    && a.Shaped() && CheckNestPair(a.axis, a.left, a.right, a.aliases) == Ok(u) &&
        !AllLiteral(a.left[a.axis], a.right[a.axis])
    && (forall k :: a.axis < k < |a.vars| ==> a.vars[k] != a.vars[a.axis])
    && (forall k, side :: a.axis <= k < |a.vars| ==>
          !Names(a.Own(side)[a.axis].lo, a.vars[k]) && !Names(a.Own(side)[a.axis].hi, a.vars[k]))
  }

  /** The left arm sits one cell higher. */
  predicate LeftUpper(a: Arms)
    requires a.Shaped()
  {
    Shift(a.left[a.axis].lo, a.right[a.axis].lo) > 0
  }

  lemma {:induction false} OwnStmts(side: Side, texts: seq<string>, other: Side, env: Env)
    ensures Only(other, Run(Stmts(side, texts), env)) == if other == side then Run(Stmts(side, texts), env) else []
    decreases |texts|
  {
    if texts != [] {
      OwnStmts(side, texts[1..], other, env);
      OnlyAppend(other, [Event(side, texts[0], env)], Run(Stmts(side, texts[1..]), env));
      assert Only(other, [Event(side, texts[0], env)]) == if other == side then [Event(side, texts[0], env)] else [];
    }
  }

  lemma RunIf(v: string, g: Guard, body: Code, rest: Code, env: Env)
    ensures Run(If(v, g, body, rest), env) == (if Holds(env, v, g) then Run(body, env) else []) + Run(rest, env)
  {}

  /** In one cell, the guarded body runs an arm when its guard lets it. */
  lemma GuardedCell(a: Arms, side: Side, env: Env)
    requires a.Shaped()
    ensures Only(side, Run(a.Guarded(), env)) ==
            if Holds(env, a.vars[a.axis], a.GuardOf(side)) then Run(a.Body(side), env) else []
  {
    var v := a.vars[a.axis];
    var first := if Holds(env, v, a.GuardOf(Left)) then Run(a.Body(Left), env) else [];
    var second := if Holds(env, v, a.GuardOf(Right)) then Run(a.Body(Right), env) else [];
    RunIf(v, a.GuardOf(Right), a.Body(Right), Nil, env);
    RunIf(v, a.GuardOf(Left), a.Body(Left), If(v, a.GuardOf(Right), a.Body(Right), Nil), env);
    assert second + [] == second;
    OnlyAppend(side, first, second);
    OwnStmts(Left, a.leftTexts, side, env);
    OwnStmts(Right, a.rightTexts, side, env);
  }

  lemma SameBoundSameValue(aliases: Aliases, b: Bound, c: Bound, env: Env)
    requires CanonicalBound(aliases, b) == CanonicalBound(aliases, c) && env.Respects(aliases)
    ensures Value(env, b) == Value(env, c)
  {
    if b.Sum? {
      CanonicalValue(aliases, b.base, env);
      CanonicalValue(aliases, c.base, env);
    }
  }

  lemma SameBoundsSameValue(aliases: Aliases, b: Bounds, c: Bounds, env: Env)
    requires SameBounds(aliases, b, c) && env.Respects(aliases)
    ensures Value(env, b.lo) == Value(env, c.lo) && Value(env, b.hi) == Value(env, c.hi)
  {
    SameBoundSameValue(aliases, b.lo, c.lo, env);
    SameBoundSameValue(aliases, b.hi, c.hi, env);
  }

  ghost function UnionFrom(a: Arms, u: Bounds, i: nat): Code
    requires a.Shaped() && i <= |a.vars|
  {
    NestFrom(a.vars, a.left[a.axis := u], i, a.Guarded())
  }

  ghost function OwnFrom(a: Arms, side: Side, i: nat): Code
    requires a.Shaped() && i <= |a.vars|
  {
    NestFrom(a.vars, a.Own(side), i, a.Body(side))
  }

  /** Setting an inner variable leaves the guard as it is. */
  lemma GuardSteady(a: Arms, u: Bounds, side: Side, k: nat, env: Env, x: int)
    requires Accepted(a, u) && a.axis < k < |a.vars|
    ensures Holds(env.Set(a.vars[k], x), a.vars[a.axis], a.GuardOf(side)) == Holds(env, a.vars[a.axis], a.GuardOf(side))
  {}

  /** One loop of the union nest, cell by cell: what it leaves of an arm is the same loop over the range the cells
      allow. */
  lemma OneLevel(a: Arms, u: Bounds, side: Side, i: nat, env: Env, lo': int, hi': int, inner: Code, own: Code)
    requires Accepted(a, u) && i < |a.vars| && inner == UnionFrom(a, u, i + 1) && own == OwnFrom(a, side, i + 1)
    requires var b := a.left[a.axis := u][i];
      && Value(env, b.lo) <= lo' && (hi' <= Value(env, b.hi) || hi' < lo')
      && forall x :: Value(env, b.lo) <= x <= Value(env, b.hi) ==>
           CellMatches(side, a.vars[i], inner, lo', hi', own, env, x)
    ensures Only(side, Run(UnionFrom(a, u, i), env)) == RunLoop(a.vars[i], lo', hi', own, env)
    ensures var b := a.Own(side)[i];
            Run(OwnFrom(a, side, i), env) == RunLoop(a.vars[i], Value(env, b.lo), Value(env, b.hi), own, env)
  {
    var b := a.left[a.axis := u][i];
    LoopRestricts(side, a.vars[i], Value(env, b.lo), Value(env, b.hi), inner, lo', hi', own, env);
    OneDo(a, u, side, i, env);
  }

  /** In the cell `env`: an arm's part of the union nest from loop `i` on is its own nest if its guard holds, or
      nothing. */
  ghost predicate InnerExact(a: Arms, u: Bounds, side: Side, i: nat, env: Env)
    requires a.Shaped() && i <= |a.vars|
  {
    Only(side, Run(UnionFrom(a, u, i), env)) ==
    if Holds(env, a.vars[a.axis], a.GuardOf(side)) then Run(OwnFrom(a, side, i), env) else []
  }

  /** Inside the axis loop: an arm's part of the union nest is its own nest, or nothing. */
  lemma {:induction false} InnerArm(a: Arms, u: Bounds, side: Side, i: nat, env: Env)
    requires Accepted(a, u) && env.Respects(a.aliases) && a.axis < i <= |a.vars|
    ensures InnerExact(a, u, side, i, env)
    decreases |a.vars| - i
  {
    if i == |a.vars| {
      GuardedCell(a, side, env);
    } else {
      var v, on := a.vars[i], Holds(env, a.vars[a.axis], a.GuardOf(side));
      var lo, hi := Value(env, a.left[i].lo), Value(env, a.left[i].hi);
      SameBoundsSameValue(a.aliases, a.left[i], a.right[i], env);
      var hi', inner, own := if on then hi else lo - 1, UnionFrom(a, u, i + 1), OwnFrom(a, side, i + 1);
      forall x | lo <= x <= hi ensures CellMatches(side, v, inner, lo, hi', own, env, x)
      {
        GuardSteady(a, u, side, i, env, x);
        SetRespects(a.aliases, env, v, x);
        InnerArm(a, u, side, i + 1, env.Set(v, x));
      }
      OneLevel(a, u, side, i, env, lo, hi', inner, own);
    }
  }

  lemma OneDo(a: Arms, u: Bounds, side: Side, i: nat, env: Env)
    requires Accepted(a, u) && i < |a.vars|
    ensures var b := a.left[a.axis := u][i];
            Run(UnionFrom(a, u, i), env) ==
                RunLoop(a.vars[i], Value(env, b.lo), Value(env, b.hi), UnionFrom(a, u, i + 1), env)
    ensures var b := a.Own(side)[i];
            Run(OwnFrom(a, side, i), env) ==
                RunLoop(a.vars[i], Value(env, b.lo), Value(env, b.hi), OwnFrom(a, side, i + 1), env)
  {
  }

  /** In the union range, the guard picks out the arm's own range when the flag is right. */
  lemma GuardIsRange(a: Arms, u: Bounds, side: Side, env: Env, x: int)
    requires Accepted(a, u) && env.Respects(a.aliases) && a.leftIsUpper == LeftUpper(a)
    requires Value(env, u.lo) <= x <= Value(env, u.hi)
    ensures Holds(env.Set(a.vars[a.axis], x), a.vars[a.axis], a.GuardOf(side)) <==>
            Value(env, a.Own(side)[a.axis].lo) <= x <= Value(env, a.Own(side)[a.axis].hi)
  {
    Mirror(a.left[a.axis], a.right[a.axis], a.aliases, u, env);
    GuardTest(a, u, side, env, x);
  }

  /** What the guard tests in a cell, with the values the bounds have outside the loop. */
  lemma GuardTest(a: Arms, u: Bounds, side: Side, env: Env, x: int)
    requires Accepted(a, u)
    ensures var own := a.Own(side)[a.axis];
            Holds(env.Set(a.vars[a.axis], x), a.vars[a.axis], a.GuardOf(side)) <==>
            if a.leftIsUpper == (side == Left) then x >= Value(env, own.lo) else x <= Value(env, own.hi)
  {
    var v, own := a.vars[a.axis], a.Own(side)[a.axis];
    assert !Names(own.lo, v) && !Names(own.hi, v);
  }

  lemma AxisCell(a: Arms, u: Bounds, side: Side, env: Env, x: int)
    requires Accepted(a, u) && env.Respects(a.aliases) && a.leftIsUpper == LeftUpper(a)
    requires Value(env, u.lo) <= x <= Value(env, u.hi)
    ensures var own := a.Own(side)[a.axis];
            CellMatches(side, a.vars[a.axis], UnionFrom(a, u, a.axis + 1), Value(env, own.lo), Value(env, own.hi),
                        OwnFrom(a, side, a.axis + 1), env, x)
  {
    GuardIsRange(a, u, side, env, x);
    SetRespects(a.aliases, env, a.vars[a.axis], x);
    InnerArm(a, u, side, a.axis + 1, env.Set(a.vars[a.axis], x));
  }

  lemma OwnWithin(a: Arms, u: Bounds, side: Side, env: Env)
    requires Accepted(a, u) && env.Respects(a.aliases)
    ensures var own := a.Own(side)[a.axis];
            Value(env, u.lo) <= Value(env, own.lo) && Value(env, own.hi) <= Value(env, u.hi)
  {
    Mirror(a.left[a.axis], a.right[a.axis], a.aliases, u, env);
  }

  lemma AxisArm(a: Arms, u: Bounds, side: Side, env: Env)
    requires Accepted(a, u) && env.Respects(a.aliases) && a.leftIsUpper == LeftUpper(a)
    ensures Only(side, Run(UnionFrom(a, u, a.axis), env)) == Run(OwnFrom(a, side, a.axis), env)
  {
    var i, range := a.axis, a.Own(side)[a.axis];
    var v, lo', hi' := a.vars[i], Value(env, range.lo), Value(env, range.hi);
    var inner, own := UnionFrom(a, u, i + 1), OwnFrom(a, side, i + 1);
    OwnWithin(a, u, side, env);
    forall x | Value(env, u.lo) <= x <= Value(env, u.hi) ensures CellMatches(side, v, inner, lo', hi', own, env, x) {
      AxisCell(a, u, side, env, x);
    }
    OneLevel(a, u, side, i, env, lo', hi', inner, own);
  }

  /** For every value of the bases, empty ranges included, each arm's statements run in the union nest on exactly the
      cells of the arm's own nest, in the same order. */
  lemma {:induction false} UnionNestExact(a: Arms, u: Bounds, side: Side, i: nat, env: Env)
    requires Accepted(a, u) && env.Respects(a.aliases) && a.leftIsUpper == LeftUpper(a) && i <= a.axis
    ensures Only(side, Run(UnionFrom(a, u, i), env)) == Run(OwnFrom(a, side, i), env)
    decreases a.axis - i
  {
    if i == a.axis {
      AxisArm(a, u, side, env);
    } else {
      var v, lo, hi := a.vars[i], Value(env, a.left[i].lo), Value(env, a.left[i].hi);
      SameBoundsSameValue(a.aliases, a.left[i], a.right[i], env);
      var inner, own := UnionFrom(a, u, i + 1), OwnFrom(a, side, i + 1);
      forall x | lo <= x <= hi ensures CellMatches(side, v, inner, lo, hi, own, env, x)
      {
        SetRespects(a.aliases, env, v, x);
        UnionNestExact(a, u, side, i + 1, env.Set(v, x));
      }
      OneLevel(a, u, side, i, env, lo, hi, inner, own);
    }
  }

  // ---------------------------------------------------------------- when the layout is wrong

  predicate In(lo: int, hi: int, x: int) {
    lo <= x <= hi
  }

  /** In a cell of the union range: does the guard hold? */
  ghost predicate LetsThrough(a: Arms, u: Bounds, side: Side, env: Env, x: int)
    requires a.Shaped()
  {
    var v := a.vars[a.axis];
    In(Value(env, u.lo), Value(env, u.hi), x) && Holds(env.Set(v, x), v, a.GuardOf(side))
  }

  /** On the difference axis, an arm's guard lets through exactly its own range. */
  ghost predicate ArmExact(a: Arms, u: Bounds, side: Side, env: Env)
    requires a.Shaped()
  {
    var v, own := a.vars[a.axis], a.Own(side)[a.axis];
    forall x :: LetsThrough(a, u, side, env, x) <==> In(Value(env, own.lo), Value(env, own.hi), x)
  }

  /** A wrong flag is wrong whenever there is a cell at all. */
  lemma FlagIff(a: Arms, u: Bounds, env: Env)
    requires Accepted(a, u) && env.Respects(a.aliases)
    ensures (ArmExact(a, u, Left, env) && ArmExact(a, u, Right, env)) <==>
            a.leftIsUpper == LeftUpper(a) || Value(env, u.lo) > Value(env, u.hi)
  {
    Mirror(a.left[a.axis], a.right[a.axis], a.aliases, u, env);
    forall side, x
      ensures var own := a.Own(side)[a.axis];
              Holds(env.Set(a.vars[a.axis], x), a.vars[a.axis], a.GuardOf(side)) <==>
              if a.leftIsUpper == (side == Left) then x >= Value(env, own.lo) else x <= Value(env, own.hi)
    {
      GuardTest(a, u, side, env, x);
    }
    if a.leftIsUpper != LeftUpper(a) && Value(env, u.lo) <= Value(env, u.hi) {
      var upper := if LeftUpper(a) then Left else Right;
      assert In(Value(env, u.lo), Value(env, u.hi), Value(env, u.lo));
      assert !In(Value(env, a.Own(upper)[a.axis].lo), Value(env, a.Own(upper)[a.axis].hi), Value(env, u.lo));
    }
  }

  /** The same cells. */
  predicate SameRange(lo: int, hi: int, lo': int, hi': int) {
    (lo == lo' && hi == hi') || (lo > hi && lo' > hi')
  }

  function Least(a: int, b: int): int { if a <= b then a else b }

  /** With literal bounds both ends of the union come from one arm, so the other must fit what its guard then leaves. */
  predicate LiteralFits(a: Arms)
    requires a.Shaped() && AllLiteral(a.left[a.axis], a.right[a.axis])
  {
    var il, jl, ir, jr := a.left[a.axis].lo.n, a.left[a.axis].hi.n, a.right[a.axis].lo.n, a.right[a.axis].hi.n;
    if il <= ir then
      if a.leftIsUpper then SameRange(il, Least(jl, jr), ir, jr) else SameRange(ir, jl, ir, jr)
    else
      if a.leftIsUpper then SameRange(il, jr, il, jl) else SameRange(ir, Least(jl, jr), il, jl)
  }

  lemma LiteralExactIff(a: Arms, u: Bounds, env: Env)
    requires a.Shaped() && AllLiteral(a.left[a.axis], a.right[a.axis])
    requires UnionRange(a.left[a.axis], a.right[a.axis], a.aliases) == Ok(u)
    ensures ArmExact(a, u, Left, env) && ArmExact(a, u, Right, env) <==> LiteralFits(a)
  {
    var v := a.vars[a.axis];
    var il, jl, ir, jr := a.left[a.axis].lo.n, a.left[a.axis].hi.n, a.right[a.axis].lo.n, a.right[a.axis].hi.n;
    forall x ensures Holds(env.Set(v, x), v, a.GuardOf(Left)) <==> if a.leftIsUpper then x >= il else x <= jl {}
    forall x ensures Holds(env.Set(v, x), v, a.GuardOf(Right)) <==> if a.leftIsUpper then x <= jr else x >= ir {}
    var lo, hi := Value(env, u.lo), Value(env, u.hi);
    if a.leftIsUpper {
      ExactIff(a, u, Left, env, if il <= lo then lo else il, hi);
      ExactIff(a, u, Right, env, lo, Least(hi, jr));
    } else {
      ExactIff(a, u, Left, env, lo, Least(hi, jl));
      ExactIff(a, u, Right, env, if ir <= lo then lo else ir, hi);
    }
  }

  /** When the guard leaves the range from `lo` to `hi`, exactness is equality of ranges. */
  lemma ExactIff(a: Arms, u: Bounds, side: Side, env: Env, lo: int, hi: int)
    requires a.Shaped()
    requires forall x :: LetsThrough(a, u, side, env, x) <==> In(lo, hi, x)
    ensures var own := a.Own(side)[a.axis];
            ArmExact(a, u, side, env) <==> SameRange(lo, hi, Value(env, own.lo), Value(env, own.hi))
  {
    var own := a.Own(side)[a.axis];
    var lo', hi' := Value(env, own.lo), Value(env, own.hi);
    assert ArmExact(a, u, side, env) <==> forall x :: In(lo, hi, x) <==> In(lo', hi', x);
    SameCells(lo, hi, lo', hi');
  }

  lemma SameCells(lo: int, hi: int, lo': int, hi': int)
    ensures (forall x :: In(lo, hi, x) <==> In(lo', hi', x)) <==> SameRange(lo, hi, lo', hi')
  {
    if forall x :: In(lo, hi, x) <==> In(lo', hi', x) {
      assert In(lo, hi, lo) <==> In(lo', hi', lo);
      assert In(lo, hi, hi) <==> In(lo', hi', hi);
      assert In(lo, hi, lo') <==> In(lo', hi', lo');
      assert In(lo, hi, hi') <==> In(lo', hi', hi');
    }
  }

  /** Arms [1, 5] and [0, 4], one cell apart: accepted, and the upper arm loses its cell 5.  Arms [0, 4] and [5, 9],
      which the source says tile: accepted, and the second arm runs nowhere. */
  lemma LiteralArmsLose(env: Env)
    ensures var a := Arms(["c"], 0, [Bounds(Literal(1), Literal(5))], [Bounds(Literal(0), Literal(4))], ["L"], ["R"],
            true, map[]);
            exists u :: UnionRange(a.left[0], a.right[0], map[]) == Ok(u) && !ArmExact(a, u, Left, env)
    ensures var a := Arms(["c"], 0, [Bounds(Literal(0), Literal(4))], [Bounds(Literal(5), Literal(9))], ["L"], ["R"],
            false, map[]);
            exists u :: UnionRange(a.left[0], a.right[0], map[]) == Ok(u) && !ArmExact(a, u, Right, env)
  {
    var a := Arms(["c"], 0, [Bounds(Literal(1), Literal(5))], [Bounds(Literal(0), Literal(4))], ["L"], ["R"], true,
        map[]);
    var b := Arms(["c"], 0, [Bounds(Literal(0), Literal(4))], [Bounds(Literal(5), Literal(9))], ["L"], ["R"], false,
        map[]);
    var own, other := a.left[0], b.right[0];
    assert a.Own(Left)[a.axis] == own && In(Value(env, own.lo), Value(env, own.hi), 5);
    assert !In(Value(env, a.right[0].lo), Value(env, a.right[0].hi), 5);
    assert UnionRange(a.left[0], a.right[0], map[]) == Ok(a.right[0]) && !ArmExact(a, a.right[0], Left, env);
    assert b.Own(Right)[b.axis] == other && In(Value(env, other.lo), Value(env, other.hi), 9);
    assert !In(Value(env, b.left[0].lo), Value(env, b.left[0].hi), 9);
    assert UnionRange(b.left[0], b.right[0], map[]) == Ok(b.left[0]) && !ArmExact(b, b.left[0], Right, env);
  }
}
