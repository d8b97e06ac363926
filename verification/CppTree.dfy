/** Texts whose conditionals are well nested, and what stripping keeps of them: directive lines and all. */
module CppTree {
  import opened CppArms

  /** A text line and what follows it, or a conditional: its opening line, the first arm, the other arms, and what
      follows its `#endif`. */
  datatype Doc = Nothing | Text(line: Line, next: Doc) | Section(open: Line, body: Doc, arms: Arms, next: Doc)

  datatype Arms = Close | Next(line: Line, body: Doc, arms: Arms)

  ghost predicate WellNested(d: Doc) {
    match d
    case Nothing => true
    case Text(line, next) => line.Plain? && WellNested(next)
    case Section(open, body, arms, next) =>
      (open.IfMacro? || open.If?) && WellNested(body) && ArmsNested(arms) && WellNested(next)
  }

  ghost predicate ArmsNested(arms: Arms) {
    arms.Next? ==> (arms.line.Else? || arms.line.Elif?) && WellNested(arms.body) && ArmsNested(arms.arms)
  }

  ghost function Lines(d: Doc): seq<Line> {
    match d
    case Nothing => []
    case Text(line, next) => [line] + Lines(next)
    case Section(open, body, arms, next) => [open] + (Lines(body) + (ArmLines(arms) + Lines(next)))
  }

  /** The other arms, with the `#endif`. */
  ghost function ArmLines(arms: Arms): seq<Line> {
    match arms
    case Close => [Endif]
    case Next(line, body, more) => [line] + (Lines(body) + ArmLines(more))
  }

  ghost predicate Guards(open: Line) {
    open.IfMacro? && (open.macro == OpenMP || open.macro == OpenACC)
  }

  /** What stripping keeps: every line that is no sentinel, but of a guarded conditional only the arms, and of those the
      first if the macro must be undefined for it, and then each `#else` if the arm before it was not kept. */
  ghost function Kept(d: Doc): seq<Line> {
    match d
    case Nothing => []
    case Text(line, next) => (if line.Plain? && line.sentinel then [] else [line]) + Kept(next)
    case Section(open, body, arms, next) =>
      if Guards(open) then (if open.defined then [] else Kept(body)) + (KeptArms(arms, !open.defined) + Kept(next))
      else [open] + (Kept(body) + (AllArms(arms) + Kept(next)))
  }

  ghost function KeptArms(arms: Arms, before: bool): seq<Line> {
    match arms
    case Close => []
    case Next(line, body, more) =>
      var here := line.Else? && !before;
      (if here then Kept(body) else []) + KeptArms(more, here)
  }

  ghost function AllArms(arms: Arms): seq<Line> {
    match arms
    case Close => [Endif]
    case Next(line, body, more) => [line] + (Kept(body) + AllArms(more))
  }

  // ---------------------------------------------------------------- the stripper keeps just that

  lemma DroppingPush(stack: seq<Block>, top: Block)
    ensures Dropping(stack + [top]) <==> Dropping(stack) || (top.guarded && top.drop)
  {
    assert top in stack + [top] && forall b :: b in stack ==> b in stack + [top];
  }

  /** What is kept under a stack that may drop it all. */
  ghost function Under(stack: seq<Block>, lines: seq<Line>): seq<Line> {
    if Dropping(stack) then [] else lines
  }

  lemma {:induction false} StripDoc(stack: seq<Block>, d: Doc, rest: seq<Line>)
    requires WellNested(d)
    ensures StripFrom(stack, Lines(d) + rest) == Under(stack, Kept(d)) + StripFrom(stack, rest)
    decreases d, 1
  {
    match d
    case Nothing =>
      assert [] + rest == rest && [] + StripFrom(stack, rest) == StripFrom(stack, rest);
    case Text(line, next) =>
      StripDoc(stack, next, rest);
      StripText(stack, line, next, rest);
    case Section(open, body, arms, next) => StripSection(stack, d, rest);
  }

  lemma {:induction false} StripText(stack: seq<Block>, line: Line, next: Doc, rest: seq<Line>)
    requires line.Plain?
    requires StripFrom(stack, Lines(next) + rest) == Under(stack, Kept(next)) + StripFrom(stack, rest)
    ensures StripFrom(stack, Lines(Text(line, next)) + rest) ==
            Under(stack, Kept(Text(line, next))) + StripFrom(stack, rest)
  {
    var kept, first := Under(stack, Kept(next)), if line.sentinel || Dropping(stack) then [] else [line];
    Regroup([line], Lines(next), rest);
    StripCons(stack, line, Lines(next) + rest);
    Regroup(first, kept, StripFrom(stack, rest));
    assert Under(stack, Kept(Text(line, next))) == first + kept;
  }

  lemma Regroup(a: seq<Line>, b: seq<Line>, c: seq<Line>)
    ensures a + (b + c) == (a + b) + c
  {
  }

  lemma {:induction false} StripSection(stack: seq<Block>, d: Doc, rest: seq<Line>)
    requires d.Section? && WellNested(d)
    ensures StripFrom(stack, Lines(d) + rest) == Under(stack, Kept(d)) + StripFrom(stack, rest)
    decreases d, 0
  {
    var top := if Guards(d.open) then Block(true, d.open.defined) else Block(false, false);
    var behind := Lines(d.next) + rest;
    SectionLines(d, rest);
    StripCons(stack, d.open, Lines(d.body) + (ArmLines(d.arms) + behind));
    StripDoc(stack + [top], d.body, ArmLines(d.arms) + behind);
    StripArms(stack, top, d.arms, behind);
    StripDoc(stack, d.next, rest);
    DroppingPush(stack, top);
    JoinSection(stack, d, StripFrom(stack, rest));
  }

  lemma SectionLines(d: Doc, rest: seq<Line>)
    requires d.Section?
    ensures Lines(d) + rest == [d.open] + (Lines(d.body) + (ArmLines(d.arms) + (Lines(d.next) + rest)))
  {
    Regroup(ArmLines(d.arms), Lines(d.next), rest);
    Regroup(Lines(d.body), ArmLines(d.arms) + Lines(d.next), rest);
    Regroup([d.open], Lines(d.body) + (ArmLines(d.arms) + Lines(d.next)), rest);
  }

  /** The parts of a conditional, put together. */
  lemma JoinSection(stack: seq<Block>, d: Doc, rest: seq<Line>)
    requires d.Section?
    ensures var guarded := Guards(d.open);
            var first := if guarded || Dropping(stack) then [] else [d.open];
            var body := if Dropping(stack) || (guarded && d.open.defined) then [] else Kept(d.body);
            var arms := if guarded then KeptArms(d.arms, !d.open.defined) else AllArms(d.arms);
            first + (body + (Under(stack, arms) + (Under(stack, Kept(d.next)) + rest))) ==
            Under(stack, Kept(d)) + rest
  {
    var guarded := Guards(d.open);
    var body := if guarded && d.open.defined then [] else Kept(d.body);
    var arms := if guarded then KeptArms(d.arms, !d.open.defined) else AllArms(d.arms);
    if !Dropping(stack) {
      Regroup(arms, Kept(d.next), rest);
      Regroup(body, arms + Kept(d.next), rest);
      Regroup([d.open], body + (arms + Kept(d.next)), rest);
      assert [] + (body + (arms + (Kept(d.next) + rest))) == body + (arms + (Kept(d.next) + rest));
    }
  }

  lemma {:induction false} StripArms(stack: seq<Block>, top: Block, arms: Arms, rest: seq<Line>)
    requires ArmsNested(arms) && (!top.guarded ==> !top.drop)
    ensures StripFrom(stack + [top], ArmLines(arms) + rest) ==
            Under(stack, if top.guarded then KeptArms(arms, !top.drop) else AllArms(arms)) + StripFrom(stack, rest)
    decreases arms, 0
  {
    var pushed := stack + [top];
    assert pushed[..|pushed| - 1] == stack && pushed[|pushed| - 1] == top;
    match arms
    case Close =>
      StripCons(pushed, Endif, rest);
      assert [] + StripFrom(stack, rest) == StripFrom(stack, rest);
    case Next(line, body, more) =>
      var next := if !top.guarded then top else Block(true, if line.Else? then !top.drop else true);
      var behind := ArmLines(more) + rest;
      Regroup(Lines(body), ArmLines(more), rest);
      Regroup([line], Lines(body) + ArmLines(more), rest);
      StripCons(pushed, line, Lines(body) + behind);
      assert StripStep(pushed, line).0 == stack + [next];
      StripDoc(stack + [next], body, behind);
      StripArms(stack, next, more, rest);
      DroppingPush(stack, next);
      JoinArms(stack, top, arms, StripFrom(stack, rest));
  }

  lemma JoinArms(stack: seq<Block>, top: Block, arms: Arms, rest: seq<Line>)
    requires arms.Next? && (!top.guarded ==> !top.drop)
    ensures var drop := top.guarded && !(arms.line.Else? && top.drop);
            var first := if top.guarded || Dropping(stack) then [] else [arms.line];
            var body := if Dropping(stack) || drop then [] else Kept(arms.body);
            var more := if top.guarded then KeptArms(arms.arms, !drop) else AllArms(arms.arms);
            first + (body + (Under(stack, more) + rest)) ==
            Under(stack, if top.guarded then KeptArms(arms, !top.drop) else AllArms(arms)) + rest
  {
    var drop := top.guarded && !(arms.line.Else? && top.drop);
    var body := if drop then [] else Kept(arms.body);
    var more := if top.guarded then KeptArms(arms.arms, !drop) else AllArms(arms.arms);
    if !Dropping(stack) {
      Regroup(body, more, rest);
      Regroup([arms.line], body + more, rest);
      assert [] + (body + (more + rest)) == body + (more + rest);
    }
  }

  /** `strip_openmp_directives` on well-nested text. */
  lemma StripKeeps(d: Doc)
    requires WellNested(d)
    ensures StripFrom([], Lines(d)) == Kept(d)
  {
    StripDoc([], d, []);
    assert Lines(d) + [] == Lines(d) && Kept(d) + [] == Kept(d);
  }

  // ---------------------------------------------------------------- the mask keeps the arms C takes

  ghost predicate Holds(env: Env, open: Line) {
    match open
    case IfMacro(defined, macro) => (macro in env.defines) == defined
    case If(e) => env.holds(e)
    case _ => false
  }

  /** The code lines of the first arm whose condition holds, or of the `#else`. */
  ghost function Selected(env: Env, d: Doc): seq<Line> {
    match d
    case Nothing => []
    case Text(line, next) => (if Code(line) then [line] else []) + Selected(env, next)
    case Section(open, body, arms, next) =>
      (if Holds(env, open) then Selected(env, body) else SelectedArm(env, arms)) + Selected(env, next)
  }

  ghost function SelectedArm(env: Env, arms: Arms): seq<Line> {
    match arms
    case Close => []
    case Next(line, body, more) =>
      if line.Else? || (line.Elif? && env.holds(line.expr)) then Selected(env, body) else SelectedArm(env, more)
  }

  lemma TakenPush(stack: seq<Arm>, top: Arm)
    ensures AllTaken(stack + [top]) <==> AllTaken(stack) && top.now
  {
    assert top in stack + [top] && forall a :: a in stack ==> a in stack + [top];
  }

  ghost function Where(stack: seq<Arm>, lines: seq<Line>): seq<Line> {
    if AllTaken(stack) then lines else []
  }

  lemma {:induction false} LiveDoc(env: Env, stack: seq<Arm>, d: Doc, rest: seq<Line>)
    requires WellNested(d)
    ensures Live(env, stack, Lines(d) + rest) == Where(stack, Selected(env, d)) + Live(env, stack, rest)
    decreases d, 1
  {
    match d
    case Nothing =>
      assert [] + rest == rest && [] + Live(env, stack, rest) == Live(env, stack, rest);
    case Text(line, next) =>
      LiveDoc(env, stack, next, rest);
      LiveText(env, stack, line, next, rest);
    case Section(open, body, arms, next) =>
      var arm, behind := Arm(Holds(env, open), Holds(env, open)), Lines(next) + rest;
      SectionLines(d, rest);
      LiveCons(env, stack, open, Lines(body) + (ArmLines(arms) + behind));
      LiveDoc(env, stack + [arm], body, ArmLines(arms) + behind);
      LiveArms(env, stack, arm, arms, behind);
      LiveDoc(env, stack, next, rest);
      TakenPush(stack, arm);
      JoinSelected(env, stack, d, Live(env, stack, rest));
  }

  lemma {:induction false} LiveText(env: Env, stack: seq<Arm>, line: Line, next: Doc, rest: seq<Line>)
    requires line.Plain?
    requires Live(env, stack, Lines(next) + rest) == Where(stack, Selected(env, next)) + Live(env, stack, rest)
    ensures Live(env, stack, Lines(Text(line, next)) + rest) ==
            Where(stack, Selected(env, Text(line, next))) + Live(env, stack, rest)
  {
    var first := if Code(line) && AllTaken(stack) then [line] else [];
    Regroup([line], Lines(next), rest);
    LiveCons(env, stack, line, Lines(next) + rest);
    Regroup(first, Where(stack, Selected(env, next)), Live(env, stack, rest));
    assert Where(stack, Selected(env, Text(line, next))) == first + Where(stack, Selected(env, next));
  }

  lemma {:induction false} JoinSelected(env: Env, stack: seq<Arm>, d: Doc, live: seq<Line>)
    requires d.Section?
    ensures var here := Holds(env, d.open);
            [] + ((if AllTaken(stack) && here then Selected(env, d.body) else []) +
            (Where(stack, if here then [] else SelectedArm(env, d.arms)) +
            (Where(stack, Selected(env, d.next)) + live))) == Where(stack, Selected(env, d)) + live
  {
    var chosen := if Holds(env, d.open) then Selected(env, d.body) else SelectedArm(env, d.arms);
    Regroup(chosen, Selected(env, d.next), live);
    var more := Where(stack, Selected(env, d.next)) + live;
    assert [] + more == more && [] + (chosen + more) == chosen + more;
  }

  lemma {:induction false} LiveArms(env: Env, stack: seq<Arm>, top: Arm, arms: Arms, rest: seq<Line>)
    requires ArmsNested(arms)
    ensures Live(env, stack + [top], ArmLines(arms) + rest) ==
            Where(stack, if top.ever then [] else SelectedArm(env, arms)) + Live(env, stack, rest)
    decreases arms, 0
  {
    var pushed, live := stack + [top], Live(env, stack, rest);
    assert pushed[..|pushed| - 1] == stack && pushed[|pushed| - 1] == top && [] + live == live;
    match arms
    case Close => LiveCons(env, pushed, Endif, rest);
    case Next(line, body, more) =>
      var now := !top.ever && (line.Else? || (line.Elif? && env.holds(line.expr)));
      var next, behind := Arm(now, top.ever || now || line.Else?), ArmLines(more) + rest;
      Regroup(Lines(body), ArmLines(more), rest);
      Regroup([line], Lines(body) + ArmLines(more), rest);
      LiveCons(env, pushed, line, Lines(body) + behind);
      assert MaskStep(env, pushed, line) == stack + [next];
      LiveDoc(env, stack + [next], body, behind);
      LiveArms(env, stack, next, more, rest);
      TakenPush(stack, next);
      assert [] + ([] + live) == live && Selected(env, body) + ([] + live) == Selected(env, body) + live;
  }

  /** `_mask_cpp` on well-nested text: what it leaves in force are the code lines a preprocessor would take. */
  lemma MaskSelects(env: Env, d: Doc)
    requires WellNested(d)
    ensures KeptLines(MaskFrom(env, [], Lines(d))) == Selected(env, d)
  {
    MaskKeepsLive(env, [], Lines(d));
    LiveDoc(env, [], d, []);
    assert Lines(d) + [] == Lines(d) && Selected(env, d) + [] == Selected(env, d);
  }
}
