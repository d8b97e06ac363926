/** Two selectors of C-preprocessor arms (conditional inclusion, section 6.10.1 of ISO/IEC 9899:2011): one drops the
    arms guarded by the OpenMP and OpenACC macros from the text, the other comments out every arm a set of definitions
    does not take.  Dropping first or selecting first leaves the same live lines. */
module CppArms {

  datatype Macro = OpenMP | OpenACC | Named(name: string)

  /** `IfMacro` is `#ifdef`/`#ifndef` and their `#if [!]defined(...)` forms; `Plain` any other line, `sentinel` when it
      is one of the accelerator lines to drop, `directive` when it starts with `#`. */
  datatype Line =
    | IfMacro(defined: bool, macro: Macro)
    | If(expr: int)
    | Elif(expr: int)
    | Else
    | Endif
    | Plain(text: string, directive: bool, sentinel: bool)

  predicate Accelerator(m: Macro) {
    m.OpenMP? || m.OpenACC?
  }

  // ---------------------------------------------------------------- stripping

  /** An open conditional: is it accelerator-guarded, and is its current arm dropped? */
  datatype Block = Block(guarded: bool, drop: bool)

  predicate Dropping(stack: seq<Block>) {
    exists b :: b in stack && b.guarded && b.drop
  }

  /** The stack after a line, and whether the line still has to pass the tests that follow the stack handling. */
  function StripStep(stack: seq<Block>, line: Line): (seq<Block>, bool) {
    var n := |stack|;
    var top := if n > 0 then stack[n - 1] else Block(false, false);
    match line
    case IfMacro(defined, macro) =>
      if Accelerator(macro) then (stack + [Block(true, defined)], false) else (stack + [Block(false, false)], true)
    case If(_) => (stack + [Block(false, false)], true)
    case Else => if top.guarded then (stack[..n - 1] + [Block(true, !top.drop)], false) else (stack, true)
    case Elif(_) => if top.guarded then (stack[..n - 1] + [Block(true, true)], false) else (stack, true)
    case Endif => if n > 0 then (stack[..n - 1], !top.guarded) else (stack, true)
    case Plain(_, _, sentinel) => (stack, !sentinel)
  }

  function StripFrom(stack: seq<Block>, lines: seq<Line>): seq<Line>
    decreases |lines|
  {
    if lines == [] then []
    else
      var (next, pass) := StripStep(stack, lines[0]);
      (if pass && !Dropping(next) then [lines[0]] else []) + StripFrom(next, lines[1..])
  }

  /** `strip_openmp_directives`. */
  method Strip(lines: seq<Line>) returns (out: seq<Line>)
    ensures out == StripFrom([], lines)
  {
    out := [];
    var stack: seq<Block> := [];
    for i := 0 to |lines|
      invariant StripFrom([], lines) == out + StripFrom(stack, lines[i..])
    {
      assert lines[i..][0] == lines[i] && lines[i..][1..] == lines[i + 1..];
      var (next, pass) := StripStep(stack, lines[i]);
      stack := next;
      if pass && !Dropping(stack) {
        out := out + [lines[i]];
      }
    }
    assert lines[|lines|..] == [];
  }

  // ---------------------------------------------------------------- masking

  /** An open conditional: is its current arm taken, and was any? */
  datatype Arm = Arm(now: bool, ever: bool)

  /** What the definitions say: which macros are defined, and which expressions hold. */
  datatype Env = Env(defines: set<Macro>, holds: int -> bool)

  function MaskStep(env: Env, stack: seq<Arm>, line: Line): seq<Arm> {
    var n := |stack|;
    match line
    case IfMacro(defined, macro) => var t := (macro in env.defines) == defined; stack + [Arm(t, t)]
    case If(e) => var t := env.holds(e); stack + [Arm(t, t)]
    case Elif(e) =>
      if n == 0 then stack
      else var t := !stack[n - 1].ever && env.holds(e); stack[..n - 1] + [Arm(t, stack[n - 1].ever || t)]
    case Else => if n == 0 then stack else stack[..n - 1] + [Arm(!stack[n - 1].ever, true)]
    case Endif => if n == 0 then stack else stack[..n - 1]
    case Plain(_, _, _) => stack
  }

  predicate AllTaken(stack: seq<Arm>) {
    forall a :: a in stack ==> a.now
  }

  predicate Code(line: Line) {
    line.Plain? && !line.directive
  }

  datatype Masked = Kept(line: Line) | Commented(line: Line)

  function MaskFrom(env: Env, stack: seq<Arm>, lines: seq<Line>): (r: seq<Masked>)
    ensures |r| == |lines|
    decreases |lines|
  {
    if lines == [] then []
    else
      var next := MaskStep(env, stack, lines[0]);
      [MaskLine(stack, lines[0])] + MaskFrom(env, next, lines[1..])
  }

  /** Directive lines and the lines of arms not taken are commented out. */
  function MaskLine(stack: seq<Arm>, line: Line): Masked {
    if Code(line) && AllTaken(stack) then Kept(line) else Commented(line)
  }

  /** `_mask_cpp`. */
  method Mask(env: Env, lines: seq<Line>) returns (out: seq<Masked>)
    ensures out == MaskFrom(env, [], lines)
  {
    out := [];
    var stack: seq<Arm> := [];
    for i := 0 to |lines|
      invariant MaskFrom(env, [], lines) == out + MaskFrom(env, stack, lines[i..])
    {
      out := out + [MaskLine(stack, lines[i])];
      stack := MaskStep(env, stack, lines[i]);
    }
    assert lines[|lines|..] == [];
  }

  /** The lines masking leaves in force. */
  ghost function Live(env: Env, stack: seq<Arm>, lines: seq<Line>): seq<Line>
    decreases |lines|
  {
    if lines == [] then []
    else
      var here := if Code(lines[0]) && AllTaken(stack) then [lines[0]] else [];
      here + Live(env, MaskStep(env, stack, lines[0]), lines[1..])
  }

  ghost function KeptLines(masked: seq<Masked>): seq<Line> {
    if masked == [] then [] else (if masked[0].Kept? then [masked[0].line] else []) + KeptLines(masked[1..])
  }

  lemma {:induction false} MaskKeepsLive(env: Env, stack: seq<Arm>, lines: seq<Line>)
    ensures KeptLines(MaskFrom(env, stack, lines)) == Live(env, stack, lines)
    ensures forall i :: 0 <= i < |lines| ==> MaskFrom(env, stack, lines)[i].line == lines[i]
    decreases |lines|
  {
    if lines != [] {
      MaskKeepsLive(env, MaskStep(env, stack, lines[0]), lines[1..]);
      assert MaskFrom(env, stack, lines)[1..] == MaskFrom(env, MaskStep(env, stack, lines[0]), lines[1..]);
    }
  }

  ghost function NoSentinels(lines: seq<Line>): seq<Line> {
    if lines == [] then []
    else (if lines[0].Plain? && lines[0].sentinel then [] else [lines[0]]) + NoSentinels(lines[1..])
  }

  // ---------------------------------------------------------------- both at once

  /** An open conditional as both see it: is it guarded, is its current arm dropped, and which arms are taken? */
  datatype Level = Level(guarded: bool, drop: bool, arm: Arm)

  ghost function StripView(k: seq<Level>): seq<Block> {
    seq(|k|, i requires 0 <= i < |k| => if k[i].guarded then Block(true, k[i].drop) else Block(false, false))
  }

  ghost function MaskView(k: seq<Level>): seq<Arm> {
    seq(|k|, i requires 0 <= i < |k| => k[i].arm)
  }

  ghost predicate Drops(k: seq<Level>) {
    exists i :: 0 <= i < |k| && k[i].guarded && k[i].drop
  }

  /** The conditionals of the stripped text: the unguarded ones outside dropped arms. */
  ghost function StrippedView(k: seq<Level>): seq<Arm> {
    if k == [] then []
    else
      var below, top := k[..|k| - 1], k[|k| - 1];
      StrippedView(below) + if !top.guarded && !Drops(below) then [top.arm] else []
  }

  ghost function LevelStep(env: Env, k: seq<Level>, line: Line): seq<Level> {
    var n := |k|;
    match line
    case IfMacro(defined, macro) =>
      var t := (macro in env.defines) == defined;
      k + [Level(Accelerator(macro), Accelerator(macro) && defined, Arm(t, t))]
    case If(e) => k + [Level(false, false, Arm(env.holds(e), env.holds(e)))]
    case Else =>
      if n == 0 then k
      else k[..n - 1] + [Level(k[n - 1].guarded, k[n - 1].guarded && !k[n - 1].drop, Arm(!k[n - 1].arm.ever, true))]
    case Elif(e) =>
      if n == 0 then k
      else
        var t := !k[n - 1].arm.ever && env.holds(e);
        k[..n - 1] + [Level(k[n - 1].guarded, k[n - 1].guarded, Arm(t, k[n - 1].arm.ever || t))]
    case Endif => if n == 0 then k else k[..n - 1]
    case Plain(_, _, _) => k
  }

  ghost predicate AcceleratorsUndefined(env: Env) {
    OpenMP !in env.defines && OpenACC !in env.defines
  }

  // ---------------------------------------------------------------- which directives both read alike

  /** In a guarded conditional: an `#elif` is not taken, and an `#else` is taken exactly when the arm before it was
      dropped. */
  ghost predicate Simple(env: Env, top: Level, line: Line) {
    top.guarded ==>
      && (line.Elif? ==> top.arm.ever || !env.holds(line.expr))
      && (line.Else? ==> top.drop == !top.arm.ever)
  }

  /** So it is, or the conditional stands in an arm not taken. */
  ghost predicate Harmless(env: Env, k: seq<Level>, line: Line) {
    k != [] ==> Simple(env, k[|k| - 1], line) || !AllTaken(MaskView(k[..|k| - 1]))
  }

  /** All the directives of a text, read on from `k`. */
  ghost predicate AllHarmless(env: Env, k: seq<Level>, lines: seq<Line>)
    decreases |lines|
  {
    lines != [] ==> Harmless(env, k, lines[0]) && AllHarmless(env, LevelStep(env, k, lines[0]), lines[1..])
  }

  /** Of each guarded conditional that stands in arms taken, the arm stripping keeps is the arm masking takes. */
  ghost predicate Aligned(k: seq<Level>) {
    k != [] ==>
      var below, top := k[..|k| - 1], k[|k| - 1];
      Aligned(below) && (top.guarded && AllTaken(MaskView(below)) ==> top.drop == !top.arm.now)
  }

  lemma DropsView(k: seq<Level>)
    ensures Drops(k) <==> Dropping(StripView(k))
  {
    if i :| 0 <= i < |k| && k[i].guarded && k[i].drop {
      assert StripView(k)[i] in StripView(k);
    }
  }

  lemma StripViewSteps(env: Env, k: seq<Level>, line: Line)
    ensures StripView(LevelStep(env, k, line)) == StripStep(StripView(k), line).0
  {
    var n := |k|;
    if n > 0 {
      assert StripView(k)[..n - 1] == StripView(k[..n - 1]);
    }
  }

  lemma MaskViewSteps(env: Env, k: seq<Level>, line: Line)
    ensures MaskView(LevelStep(env, k, line)) == MaskStep(env, MaskView(k), line)
  {
    var n := |k|;
    if n > 0 {
      assert MaskView(k)[..n - 1] == MaskView(k[..n - 1]);
    }
  }

  lemma DropsPush(k: seq<Level>, top: Level)
    ensures Drops(k + [top]) <==> Drops(k) || (top.guarded && top.drop)
  {
    var k' := k + [top];
    if i :| 0 <= i < |k| && k[i].guarded && k[i].drop {
      assert k'[i] == k[i];
    }
    assert k'[|k|] == top;
  }

  /** Reading a directive keeps the arms aligned exactly when it is harmless. */
  lemma {:induction false} AlignedSteps(env: Env, k: seq<Level>, line: Line)
    requires AcceleratorsUndefined(env) && Aligned(k)
    ensures Aligned(LevelStep(env, k, line)) <==> Harmless(env, k, line)
  {
    var k' := LevelStep(env, k, line);
    if line.IfMacro? || line.If? {
      assert k'[..|k|] == k;
    } else if k != [] && (line.Else? || line.Elif?) {
      assert k'[..|k| - 1] == k[..|k| - 1];
    }
  }

  /** The stripped text's stack: a line that stripping emits moves it, a line it drops leaves it. */
  ghost predicate StrippedFollows(env: Env, k: seq<Level>, line: Line) {
    var k' := LevelStep(env, k, line);
    var emitted := StripStep(StripView(k), line).1 && !Drops(k');
    StrippedView(k') == if emitted then MaskStep(env, StrippedView(k), line) else StrippedView(k)
  }

  lemma ArmFollows(env: Env, k: seq<Level>, line: Line)
    requires k != [] && (line.Else? || line.Elif?)
    ensures StrippedFollows(env, k, line)
  {
    var below, top := k[..|k| - 1], k[|k| - 1];
    assert k == below + [top];
    var top' := LevelStep(env, k, line)[|k| - 1];
    assert LevelStep(env, k, line) == below + [top'];
    DropsPush(below, top');
    if !top.guarded && !Drops(below) {
      var seen := StrippedView(k);
      assert seen[..|seen| - 1] == StrippedView(below) && seen[|seen| - 1] == top.arm;
    }
  }

  lemma CloseFollows(env: Env, k: seq<Level>)
    requires k != []
    ensures StrippedFollows(env, k, Endif)
  {
    var below, top := k[..|k| - 1], k[|k| - 1];
    assert k == below + [top];
    if !top.guarded && !Drops(below) {
      var seen := StrippedView(k);
      assert seen[..|seen| - 1] == StrippedView(below);
    }
  }

  lemma OpenFollows(env: Env, k: seq<Level>, line: Line)
    requires line.IfMacro? || line.If?
    ensures StrippedFollows(env, k, line)
  {
    var k' := LevelStep(env, k, line);
    assert k'[..|k|] == k && k' == k + [k'[|k|]];
    DropsPush(k, k'[|k|]);
  }

  lemma StrippedSteps(env: Env, k: seq<Level>, line: Line)
    ensures StrippedFollows(env, k, line)
  {
    match line
    case IfMacro(_, _) => OpenFollows(env, k, line);
    case If(_) => OpenFollows(env, k, line);
    case Else => if k != [] { ArmFollows(env, k, line); }
    case Elif(_) => if k != [] { ArmFollows(env, k, line); }
    case Endif => if k != [] { CloseFollows(env, k); }
    case Plain(_, _, _) =>
  }

  lemma {:induction false} TakenViews(k: seq<Level>)
    requires Aligned(k)
    ensures AllTaken(MaskView(k)) <==> !Drops(k) && AllTaken(StrippedView(k))
    decreases |k|
  {
    if k != [] {
      var below, top := k[..|k| - 1], k[|k| - 1];
      assert k == below + [top];
      TakenViews(below);
      DropsPush(below, top);
      TakenPush(MaskView(below), top.arm);
      assert MaskView(k) == MaskView(below) + [top.arm];
      TakenPush(StrippedView(below), top.arm);
    }
  }

  lemma TakenPush(stack: seq<Arm>, top: Arm)
    ensures AllTaken(stack + [top]) <==> AllTaken(stack) && top.now
  {
    assert top in stack + [top] && forall a :: a in stack ==> a in stack + [top];
  }

  // ---------------------------------------------------------------- what is left, both ways

  /** Read on from `k`: the live lines of the stripped text, and the live lines of the text without the sentinels. */
  ghost function StrippedLive(env: Env, k: seq<Level>, lines: seq<Line>): seq<Line> {
    Live(env, StrippedView(k), StripFrom(StripView(k), lines))
  }

  ghost function PlainLive(env: Env, k: seq<Level>, lines: seq<Line>): seq<Line> {
    NoSentinels(Live(env, MaskView(k), lines))
  }

  lemma LiveCons(env: Env, stack: seq<Arm>, line: Line, rest: seq<Line>)
    ensures Live(env, stack, [line] + rest) ==
            (if Code(line) && AllTaken(stack) then [line] else []) + Live(env, MaskStep(env, stack, line), rest)
  {
    assert ([line] + rest)[1..] == rest;
  }

  lemma StripCons(stack: seq<Block>, line: Line, rest: seq<Line>)
    ensures var (next, pass) := StripStep(stack, line);
            StripFrom(stack, [line] + rest) ==
            (if pass && !Dropping(next) then [line] else []) + StripFrom(next, rest)
  {
    assert ([line] + rest)[1..] == rest;
  }

  lemma NoSentinelsCons(line: Line, rest: seq<Line>)
    ensures NoSentinels([line] + rest) == (if line.Plain? && line.sentinel then [] else [line]) + NoSentinels(rest)
  {
    assert ([line] + rest)[1..] == rest;
  }

  /** A directive moves the stacks. */
  lemma DirectiveMoves(env: Env, k: seq<Level>, line: Line, rest: seq<Line>)
    requires !line.Plain?
    ensures StrippedLive(env, k, [line] + rest) == StrippedLive(env, LevelStep(env, k, line), rest)
    ensures PlainLive(env, k, [line] + rest) == PlainLive(env, LevelStep(env, k, line), rest)
  {
    DirectiveMovesStripped(env, k, line, rest);
    MaskViewSteps(env, k, line);
    LiveCons(env, MaskView(k), line, rest);
    var live := Live(env, MaskView(LevelStep(env, k, line)), rest);
    assert [] + live == live;
  }

  lemma DirectiveMovesStripped(env: Env, k: seq<Level>, line: Line, rest: seq<Line>)
    requires !line.Plain?
    ensures StrippedLive(env, k, [line] + rest) == StrippedLive(env, LevelStep(env, k, line), rest)
  {
    var k' := LevelStep(env, k, line);
    StripViewSteps(env, k, line);
    StrippedSteps(env, k, line);
    DropsView(k');
    StripCons(StripView(k), line, rest);
    var stripped := StripFrom(StripView(k'), rest);
    LiveCons(env, StrippedView(k), line, stripped);
    var live := Live(env, StrippedView(k'), stripped);
    assert [] + stripped == stripped && [] + live == live;
  }

  /** A line of text is left where both take the arm. */
  lemma TextStays(env: Env, k: seq<Level>, line: Line, rest: seq<Line>)
    requires line.Plain?
    ensures StrippedLive(env, k, [line] + rest) ==
            (if Code(line) && !line.sentinel && !Drops(k) && AllTaken(StrippedView(k)) then [line] else []) +
            StrippedLive(env, k, rest)
    ensures PlainLive(env, k, [line] + rest) ==
            (if Code(line) && !line.sentinel && AllTaken(MaskView(k)) then [line] else []) + PlainLive(env, k, rest)
  {
    TextStaysStripped(env, k, line, rest);
    LiveCons(env, MaskView(k), line, rest);
    var live := Live(env, MaskView(k), rest);
    NoSentinelsCons(line, live);
    assert [] + live == live && [] + NoSentinels(live) == NoSentinels(live);
  }

  lemma TextStaysStripped(env: Env, k: seq<Level>, line: Line, rest: seq<Line>)
    requires line.Plain?
    ensures StrippedLive(env, k, [line] + rest) ==
            (if Code(line) && !line.sentinel && !Drops(k) && AllTaken(StrippedView(k)) then [line] else []) +
            StrippedLive(env, k, rest)
  {
    DropsView(k);
    StripCons(StripView(k), line, rest);
    var stripped := StripFrom(StripView(k), rest);
    LiveCons(env, StrippedView(k), line, stripped);
    var live := Live(env, StrippedView(k), stripped);
    assert [] + stripped == stripped && [] + live == live;
  }

  /** Stripping and then selecting leaves the live lines that selecting alone leaves, without the sentinels. */
  lemma {:induction false} StripThenMask(env: Env, k: seq<Level>, lines: seq<Line>)
    requires AcceleratorsUndefined(env) && Aligned(k) && AllHarmless(env, k, lines)
    ensures StrippedLive(env, k, lines) == PlainLive(env, k, lines)
    decreases |lines|
  {
    if lines != [] {
      AlignedSteps(env, k, lines[0]);
      StripThenMask(env, LevelStep(env, k, lines[0]), lines[1..]);
      assert lines == [lines[0]] + lines[1..];
      if lines[0].Plain? {
        TakenViews(k);
        TextStays(env, k, lines[0], lines[1..]);
      } else {
        DirectiveMoves(env, k, lines[0], lines[1..]);
      }
    }
  }

  /** Stripping commutes with selecting. */
  ghost predicate Commutes(env: Env, lines: seq<Line>) {
    KeptLines(MaskFrom(env, [], StripFrom([], lines))) == NoSentinels(KeptLines(MaskFrom(env, [], lines)))
  }

  lemma CommutesLive(env: Env, lines: seq<Line>)
    ensures Commutes(env, lines) <==> StrippedLive(env, [], lines) == PlainLive(env, [], lines)
  {
    assert StripView([]) == [] && MaskView([]) == [];
    MaskKeepsLive(env, [], StripFrom([], lines));
    MaskKeepsLive(env, [], lines);
  }

  /** The commuting law for whole texts. */
  lemma StripCommutes(env: Env, lines: seq<Line>)
    requires AcceleratorsUndefined(env) && AllHarmless(env, [], lines)
    ensures Commutes(env, lines)
  {
    StripThenMask(env, [], lines);
    CommutesLive(env, lines);
  }

  // ---------------------------------------------------------------- and only then

  /** The directives of a text, without the lines between them. */
  ghost function Skeleton(lines: seq<Line>): seq<Line> {
    if lines == [] then [] else (if lines[0].Plain? then [] else [lines[0]]) + Skeleton(lines[1..])
  }

  ghost predicate Bare(lines: seq<Line>) {
    forall l :: l in lines ==> !l.Plain?
  }

  lemma {:induction false} SkeletonBare(lines: seq<Line>)
    requires Bare(lines)
    ensures Skeleton(lines) == lines
  {
    if lines != [] {
      assert lines[0] in lines;
      SkeletonBare(lines[1..]);
    }
  }

  /** Only the directives decide. */
  lemma {:induction false} HarmlessSkeleton(env: Env, k: seq<Level>, lines: seq<Line>)
    ensures AllHarmless(env, k, lines) <==> AllHarmless(env, k, Skeleton(lines))
    decreases |lines|
  {
    if lines != [] {
      HarmlessSkeleton(env, LevelStep(env, k, lines[0]), lines[1..]);
      if !lines[0].Plain? {
        assert Skeleton(lines)[1..] == Skeleton(lines[1..]);
      } else {
        assert Skeleton(lines) == Skeleton(lines[1..]);
      }
    }
  }

  /** Directives alone leave nothing. */
  lemma {:induction false} BareLeavesNothing(env: Env, k: seq<Level>, lines: seq<Line>)
    requires Bare(lines)
    ensures StrippedLive(env, k, lines) == [] && PlainLive(env, k, lines) == []
    decreases |lines|
  {
    if lines != [] {
      assert lines[0] in lines && lines == [lines[0]] + lines[1..];
      BareLeavesNothing(env, LevelStep(env, k, lines[0]), lines[1..]);
      DirectiveMoves(env, k, lines[0], lines[1..]);
    }
  }

  ghost const TEXT: Line := Plain("x", false, false)

  /** A line of text behind the first directive the two read differently is left by one of them only. */
  lemma {:induction false} TellingText(env: Env, k: seq<Level>, skeleton: seq<Line>) returns (lines: seq<Line>)
    requires AcceleratorsUndefined(env) && Aligned(k) && Bare(skeleton) && !AllHarmless(env, k, skeleton)
    ensures Skeleton(lines) == skeleton && StrippedLive(env, k, lines) != PlainLive(env, k, lines)
    decreases |skeleton|
  {
    var line, rest := skeleton[0], skeleton[1..];
    var k' := LevelStep(env, k, line);
    AlignedSteps(env, k, line);
    assert line in skeleton && skeleton == [line] + rest;
    var text;
    if Harmless(env, k, line) {
      text := TellingText(env, k', rest);
    } else {
      text := [TEXT] + rest;
      HarmfulTells(env, k, line, rest);
    }
    lines := [line] + text;
    DirectiveMoves(env, k, line, text);
    assert lines[1..] == text;
  }

  /** The newest conditional is the first whose arms are not aligned. */
  lemma {:induction false} NotAlignedTells(k: seq<Level>)
    requires k != [] && Aligned(k[..|k| - 1]) && !Aligned(k)
    ensures AllTaken(MaskView(k)) != (!Drops(k) && AllTaken(StrippedView(k)))
  {
    var below, top := k[..|k| - 1], k[|k| - 1];
    assert k == below + [top] && MaskView(k) == MaskView(below) + [top.arm];
    TakenViews(below);
    DropsPush(below, top);
    TakenPush(MaskView(below), top.arm);
  }

  lemma {:induction false} HarmfulTells(env: Env, k: seq<Level>, line: Line, rest: seq<Line>)
    requires AcceleratorsUndefined(env) && Aligned(k) && Bare(rest) && !Harmless(env, k, line)
    ensures Skeleton([TEXT] + rest) == rest
    ensures var k' := LevelStep(env, k, line);
            StrippedLive(env, k', [TEXT] + rest) != PlainLive(env, k', [TEXT] + rest)
  {
    var k' := LevelStep(env, k, line);
    AlignedSteps(env, k, line);
    assert k'[..|k'| - 1] == k[..|k| - 1];
    NotAlignedTells(k');
    SkeletonBare(rest);
    BareLeavesNothing(env, k', rest);
    TextStays(env, k', TEXT, rest);
    assert ([TEXT] + rest)[1..] == rest;
  }

  /** All texts with these directives. */
  ghost predicate AllCommute(env: Env, skeleton: seq<Line>) {
    forall lines :: Skeleton(lines) == skeleton ==> Commutes(env, lines)
  }

  /** The exact condition: whatever stands between the directives, stripping first and selecting first leave the same
      lines, exactly when each `#elif` and `#else` of a guarded conditional is harmless. */
  lemma CommutesIff(env: Env, skeleton: seq<Line>)
    requires AcceleratorsUndefined(env) && Bare(skeleton)
    ensures AllCommute(env, skeleton) <==> AllHarmless(env, [], skeleton)
  {
    if AllHarmless(env, [], skeleton) {
      forall lines | Skeleton(lines) == skeleton ensures Commutes(env, lines) {
        HarmlessSkeleton(env, [], lines);
        StripCommutes(env, lines);
      }
    } else {
      var lines := TellingText(env, [], skeleton);
      CommutesLive(env, lines);
    }
  }

  // ---------------------------------------------------------------- two ways to differ

  /** A conditional on a defined accelerator macro, with an `#elif`. */
  ghost function GuardedElif(e: int, x: Line): seq<Line> {
    [IfMacro(true, OpenMP)] + ([Elif(e)] + ([x] + [Endif]))
  }

  /** When the `#elif` holds, masking takes its arm and stripping has dropped it. */
  lemma ElifDiffers(env: Env, e: int, x: Line)
    requires AcceleratorsUndefined(env) && env.holds(e) && Code(x)
    ensures KeptLines(MaskFrom(env, [], GuardedElif(e, x))) == [x]
    ensures KeptLines(MaskFrom(env, [], StripFrom([], GuardedElif(e, x)))) == []
  {
    var lines, tail := GuardedElif(e, x), [x] + [Endif];
    MaskKeepsLive(env, [], lines);
    var taken := [Arm(true, true)];
    assert MaskStep(env, [Arm(false, false)], Elif(e)) == taken && AllTaken(taken);
    LiveCons(env, taken, x, [Endif]);
    LiveCons(env, [Arm(false, false)], Elif(e), tail);
    LiveCons(env, [], IfMacro(true, OpenMP), [Elif(e)] + tail);
    assert Live(env, taken, [Endif]) == [];
    ElifDropped(e, x);
  }

  lemma ElifDropped(e: int, x: Line)
    requires Code(x)
    ensures StripFrom([], GuardedElif(e, x)) == []
  {
    var tail, drops := [x] + [Endif], [Block(true, true)];
    assert Dropping(drops) by {
      assert drops[0] in drops;
    }
    StripCons(drops, x, [Endif]);
    StripCons(drops, Elif(e), tail);
    StripCons([], IfMacro(true, OpenMP), [Elif(e)] + tail);
    assert StripFrom(drops, [Endif]) == [];
  }

  /** An `#elif` and an `#else` behind an arm that stripping keeps. */
  ghost function Onward(e: int, y: Line, z: Line): seq<Line> {
    [Elif(e)] + ([y] + ([Else] + ([z] + [Endif])))
  }

  ghost function ThreeArms(e: int, x: Line, y: Line, z: Line): seq<Line> {
    [IfMacro(false, OpenMP)] + ([x] + Onward(e, y, z))
  }

  /** Stripping keeps the first arm and, past the `#elif`, the last one too; masking takes the first only. */
  lemma ElseKeptTwice(env: Env, e: int, x: Line, y: Line, z: Line)
    requires AcceleratorsUndefined(env) && Code(x) && Code(y) && Code(z) && !x.sentinel && !z.sentinel
    ensures KeptLines(MaskFrom(env, [], StripFrom([], ThreeArms(e, x, y, z)))) == [x, z]
    ensures KeptLines(MaskFrom(env, [], ThreeArms(e, x, y, z))) == [x]
  {
    var lines, taken := ThreeArms(e, x, y, z), [Arm(true, true)];
    MaskKeepsLive(env, [], StripFrom([], lines));
    MaskKeepsLive(env, [], lines);
    OnwardStripped(e, x, y, z);
    LiveCons(env, [], x, [z]);
    LiveCons(env, [], z, []);
    assert [x] + [z] == [x, z] && [z] + [] == [z];
    OnwardNotTaken(env, e, y, z);
    LiveCons(env, taken, x, Onward(e, y, z));
    LiveCons(env, [], IfMacro(false, OpenMP), [x] + Onward(e, y, z));
    assert MaskStep(env, [], IfMacro(false, OpenMP)) == taken && AllTaken(taken);
  }

  lemma OnwardStripped(e: int, x: Line, y: Line, z: Line)
    requires Code(x) && Code(y) && Code(z) && !x.sentinel && !z.sentinel
    ensures StripFrom([], ThreeArms(e, x, y, z)) == [x] + [z]
  {
    var keeps, drops := [Block(true, false)], [Block(true, true)];
    assert !Dropping(keeps) && Dropping(drops) by {
      assert drops[0] in drops;
    }
    assert keeps[..0] + drops == drops && drops[..0] + keeps == keeps;
    StripCons(keeps, z, [Endif]);
    StripCons(drops, Else, [z] + [Endif]);
    StripCons(drops, y, [Else] + ([z] + [Endif]));
    StripCons(keeps, Elif(e), [y] + ([Else] + ([z] + [Endif])));
    StripCons(keeps, x, Onward(e, y, z));
    StripCons([], IfMacro(false, OpenMP), [x] + Onward(e, y, z));
    assert StripFrom(keeps, [Endif]) == [];
  }

  lemma OnwardNotTaken(env: Env, e: int, y: Line, z: Line)
    requires Code(y) && Code(z)
    ensures Live(env, [Arm(true, true)], Onward(e, y, z)) == []
  {
    var past := [Arm(false, true)];
    assert !AllTaken(past) by {
      assert past[0] in past;
    }
    assert MaskStep(env, [Arm(true, true)], Elif(e)) == past && MaskStep(env, past, Else) == past;
    LiveCons(env, past, z, [Endif]);
    LiveCons(env, past, Else, [z] + [Endif]);
    LiveCons(env, past, y, [Else] + ([z] + [Endif]));
    LiveCons(env, [Arm(true, true)], Elif(e), [y] + ([Else] + ([z] + [Endif])));
    assert Live(env, past, [Endif]) == [];
  }

  // ---------------------------------------------------------------- idempotence

  /** Nothing left for stripping to do. */
  ghost predicate Clean(lines: seq<Line>) {
    forall l :: l in lines ==> (l.IfMacro? ==> !Accelerator(l.macro)) && (l.Plain? ==> !l.sentinel)
  }

  lemma {:induction false} StripCleans(stack: seq<Block>, lines: seq<Line>)
    ensures Clean(StripFrom(stack, lines))
    decreases |lines|
  {
    if lines != [] {
      StripCleans(StripStep(stack, lines[0]).0, lines[1..]);
    }
  }

  lemma {:induction false} CleanUnchanged(stack: seq<Block>, lines: seq<Line>)
    requires Clean(lines) && forall b :: b in stack ==> !b.guarded
    ensures StripFrom(stack, lines) == lines
    decreases |lines|
  {
    if lines != [] {
      assert lines[0] in lines;
      assert stack != [] ==> stack[|stack| - 1] in stack;
      var (next, pass) := StripStep(stack, lines[0]);
      CleanUnchanged(next, lines[1..]);
    }
  }

  /** Stripping twice strips nothing more, whether or not the text's conditionals balance. */
  lemma StripIdempotent(lines: seq<Line>)
    ensures StripFrom([], StripFrom([], lines)) == StripFrom([], lines)
  {
    StripCleans([], lines);
    CleanUnchanged([], StripFrom([], lines));
  }
}
