/** Emptying the bodies of chosen procedures in a stream of source lines: the opener, the specification part and the
    matching END stay, past any contained subprograms. */
module ProcedureStubs {

  /** Source lines by what the stubber looks at; `Spec` is a specification statement or a blank line. */
  datatype Line =
    | Open(name: string)
    | End
    | Contains
    | IfaceOpen
    | IfaceEnd
    | Spec(text: string)
    | Exec(text: string)

  /** `_is_target`: a target's own name, or a specific of the generic the target names. */
  predicate IsTarget(targets: set<string>, name: string) {
    name in targets || exists t :: t in targets && t + "_" <= name
  }

  /** A target is one of the names, or one of them with a suffix behind an underscore. */
  lemma TargetIff(targets: set<string>, name: string)
    ensures IsTarget(targets, name) <==> exists t :: t in targets && Specific(t, name)
  {
    if t :| t in targets && t + "_" <= name {
      assert name == t + "_" + name[|t| + 1..];
      assert Specific(t, name);
    }
    if name in targets {
      assert Specific(name, name);
    }
    if t :| t in targets && Specific(t, name) {
      if suffix :| name == t + "_" + suffix {
        assert t + "_" <= name;
      }
    }
  }

  ghost predicate Specific(t: string, name: string) {
    name == t || exists suffix: string :: name == t + "_" + suffix
  }

  /** A longer name is none: the character behind the target must be an underscore. */
  lemma LongerNameIsNone(t: string, c: char, suffix: string)
    requires c != '_'
    ensures !IsTarget({t}, t + [c] + suffix)
  {
    var name := t + [c] + suffix;
    assert name[|t|] == c && (t + "_")[|t|] == '_';
  }

  // ---------------------------------------------------------------- the scanner, as functions of the lines ahead

  /** Lines of an INTERFACE block ahead, `depth` of them open. */
  function IfaceLength(lines: seq<Line>, depth: int): (n: nat)
    ensures n <= |lines|
    decreases |lines|
  {
    if lines == [] then 0
    else if lines[0].IfaceOpen? then 1 + IfaceLength(lines[1..], depth + 1)
    else if lines[0].IfaceEnd? && depth - 1 == 0 then 1
    else 1 + IfaceLength(lines[1..], if lines[0].IfaceEnd? then depth - 1 else depth)
  }

  /** Lines of the specification part ahead: up to the first executable statement, subprogram, CONTAINS or END. */
  function SpecLength(lines: seq<Line>): (n: nat)
    ensures n <= |lines|
    decreases |lines|
  {
    if lines == [] then 0
    else match lines[0]
      case IfaceOpen =>
        var k := 1 + IfaceLength(lines[1..], 1);
        k + SpecLength(lines[k..])
      case Spec(_) => 1 + SpecLength(lines[1..])
      case IfaceEnd => 1 + SpecLength(lines[1..])
      case _ => 0
  }

  /** Lines up to and including the END that closes `depth` open procedures; all of them if there is none. */
  function DropLength(lines: seq<Line>, depth: int): (n: nat)
    ensures n <= |lines|
    decreases |lines|
  {
    if lines == [] then 0
    else if lines[0].End? && depth - 1 == 0 then 1
    else 1 + DropLength(lines[1..], if lines[0].Open? then depth + 1 else if lines[0].End? then depth - 1 else depth)
  }

  function Finds(lines: seq<Line>, depth: int): bool
    decreases |lines|
  {
    lines != [] && ((lines[0].End? && depth - 1 == 0) ||
      Finds(lines[1..], if lines[0].Open? then depth + 1 else if lines[0].End? then depth - 1 else depth))
  }

  function StubLines(targets: set<string>, lines: seq<Line>): seq<Line>
    decreases |lines|
  {
    if lines == [] then []
    else if !(lines[0].Open? && IsTarget(targets, lines[0].name)) then [lines[0]] + StubLines(targets, lines[1..])
    else
      var s := 1 + SpecLength(lines[1..]);
      var d := s + DropLength(lines[s..], 1);
      lines[..s] + (if Finds(lines[s..], 1) then [End] else []) + StubLines(targets, lines[d..])
  }

  /** The functions, one line at a time. */
  lemma IfaceNext(l: Line, rest: seq<Line>, depth: int)
    ensures IfaceLength([l] + rest, depth) ==
            if l.IfaceEnd? && depth == 1 then 1
            else 1 + IfaceLength(rest, if l.IfaceOpen? then depth + 1 else if l.IfaceEnd? then depth - 1 else depth)
  {
    assert ([l] + rest)[1..] == rest;
  }

  lemma DropNext(l: Line, rest: seq<Line>, depth: int)
    ensures l.End? && depth == 1 ==> DropLength([l] + rest, depth) == 1 && Finds([l] + rest, depth)
    ensures !(l.End? && depth == 1) ==>
              var d := if l.Open? then depth + 1 else if l.End? then depth - 1 else depth;
              DropLength([l] + rest, depth) == 1 + DropLength(rest, d) && Finds([l] + rest, depth) == Finds(rest, d)
  {
    assert ([l] + rest)[1..] == rest;
  }

  /** A target: opener and specification part, then the body up to its END. */
  lemma StubNextTarget(targets: set<string>, head: seq<Line>, body: seq<Line>, rest: seq<Line>, found: bool)
    requires head != [] && head[0].Open? && IsTarget(targets, head[0].name)
    requires SpecLength(head[1..] + (body + rest)) == |head| - 1
    requires DropLength(body + rest, 1) == |body| && Finds(body + rest, 1) == found
    ensures StubLines(targets, head + (body + rest)) ==
            head + (if found then [End] else []) + StubLines(targets, rest)
  {
    var all := head + (body + rest);
    Slices(head, body, rest);
    var s := 1 + SpecLength(all[1..]);
    assert s == |head|;
    var d := s + DropLength(all[s..], 1);
    assert d == |head| + |body|;
    assert all[0] == head[0];
  }

  lemma Slices(head: seq<Line>, body: seq<Line>, rest: seq<Line>)
    requires head != []
    ensures var all := head + (body + rest);
            && all[1..] == head[1..] + (body + rest) && all[..|head|] == head && all[|head|..] == body + rest
            && all[|head| + |body|..] == rest
  {}

  // ---------------------------------------------------------------- the scanner, as the pass runs it

  /** `_stub_procedure_bodies`. */
  method Stub(targets: set<string>, lines: seq<Line>) returns (out: seq<Line>)
    ensures out == if targets == {} then lines else StubLines(targets, lines)
  {
    if targets == {} {
      return lines;
    }
    out := [];
    var i := 0;
    while i < |lines|
      invariant 0 <= i <= |lines|
      invariant StubLines(targets, lines) == out + StubLines(targets, lines[i..])
    {
      var chunk, j := StubOne(targets, lines, i);
      out, i := out + chunk, j;
    }
    assert lines[|lines|..] == [];
  }

  /** The body of the scanner's loop: what it appends, and where it goes on. */
  method StubOne(targets: set<string>, lines: seq<Line>, i: nat) returns (chunk: seq<Line>, j: nat)
    requires i < |lines|
    ensures i < j <= |lines|
    ensures StubLines(targets, lines[i..]) == chunk + StubLines(targets, lines[j..])
  {
    if !(lines[i].Open? && IsTarget(targets, lines[i].name)) {
      assert lines[i..] == [lines[i]] + lines[i + 1..];
      return [lines[i]], i + 1;
    }
    var s := KeepSpec(lines, i + 1);
    var d, found := DropBody(lines, s);
    StubbedTarget(targets, lines, i, s, d, found);
    return lines[i..s] + (if found then [End] else []), d;
  }

  lemma StubbedTarget(targets: set<string>, lines: seq<Line>, i: nat, s: nat, d: nat, found: bool)
    requires i < |lines| && lines[i].Open? && IsTarget(targets, lines[i].name)
    requires s == i + 1 + SpecLength(lines[i + 1..]) && s <= |lines|
    requires d == s + DropLength(lines[s..], 1) && d <= |lines| && found == Finds(lines[s..], 1)
    ensures StubLines(targets, lines[i..]) ==
            (lines[i..s] + if found then [End] else []) + StubLines(targets, lines[d..])
  {
    var head, body, rest := lines[i..s], lines[s..d], lines[d..];
    assert body + rest == lines[s..];
    assert head[1..] + (body + rest) == lines[i + 1..];
    assert head + (body + rest) == lines[i..];
    StubNextTarget(targets, head, body, rest, found);
  }

  /** The loop over the specification part: `j` is where it ends. */
  method KeepSpec(lines: seq<Line>, i: nat) returns (j: nat)
    requires i <= |lines|
    ensures j == i + SpecLength(lines[i..]) && j <= |lines|
  {
    j := i;
    while j < |lines|
      invariant i <= j <= |lines|
      invariant i + SpecLength(lines[i..]) == j + SpecLength(lines[j..])
    {
      ghost var ahead := lines[j..];
      assert ahead[0] == lines[j] && ahead[1..] == lines[j + 1..];
      if lines[j].IfaceOpen? {
        var k := KeepIface(lines, j);
        assert lines[k..] == ahead[k - j..];
        j := k;
      } else if lines[j].Spec? || lines[j].IfaceEnd? {
        j := j + 1;
      } else {
        return;
      }
    }
  }

  /** The loop over an INTERFACE block. */
  method KeepIface(lines: seq<Line>, i: nat) returns (j: nat)
    requires i < |lines| && lines[i].IfaceOpen?
    ensures j == i + 1 + IfaceLength(lines[i + 1..], 1) && j <= |lines|
  {
    var depth := 0;
    j := i;
    assert lines[i..][0] == lines[i] && lines[i..][1..] == lines[i + 1..];
    ghost var goal := i + IfaceLength(lines[i..], 0);
    while j < |lines|
      invariant i <= j <= |lines| && goal == j + IfaceLength(lines[j..], depth)
    {
      var line := lines[j];
      assert lines[j..][0] == line && lines[j..][1..] == lines[j + 1..];
      j := j + 1;
      if line.IfaceOpen? {
        depth := depth + 1;
      } else if line.IfaceEnd? {
        depth := depth - 1;
        if depth == 0 {
          break;
        }
      }
    }
  }

  /** The loop to the matching END. */
  method DropBody(lines: seq<Line>, i: nat) returns (j: nat, found: bool)
    requires i <= |lines|
    ensures j == i + DropLength(lines[i..], 1) && j <= |lines| && found == Finds(lines[i..], 1)
  {
    var depth := 1;
    j, found := i, false;
    while j < |lines|
      invariant i <= j <= |lines|
      invariant i + DropLength(lines[i..], 1) == j + DropLength(lines[j..], depth)
      invariant Finds(lines[i..], 1) == Finds(lines[j..], depth)
    {
      assert lines[j..][0] == lines[j] && lines[j..][1..] == lines[j + 1..];
      if lines[j].Open? {
        depth := depth + 1;
      } else if lines[j].End? {
        depth := depth - 1;
        if depth == 0 {
          j, found := j + 1, true;
          return;
        }
      }
      j := j + 1;
    }
  }

  // ---------------------------------------------------------------- well-nested streams

  /** A procedure or INTERFACE block with what it holds, or a line of its own. */
  datatype Item = Leaf(line: Line) | Proc(name: string, body: Items) | Iface(body: Items)

  datatype Items = Nil | Cons(head: Item, tail: Items)

  /** The lines that stand for themselves. */
  ghost predicate WellFormed(items: Items) {
    match items
    case Nil => true
    case Cons(Leaf(l), tail) => (l.Spec? || l.Exec? || l.Contains?) && WellFormed(tail)
    case Cons(Proc(_, body), tail) => WellFormed(body) && WellFormed(tail)
    case Cons(Iface(body), tail) => WellFormed(body) && WellFormed(tail)
  }

  ghost function Lines(items: Items): seq<Line>
    decreases items, 0
  {
    match items
    case Nil => []
    case Cons(item, tail) => ItemLines(item) + Lines(tail)
  }

  ghost function ItemLines(item: Item): seq<Line>
    decreases item, 0
  {
    match item
    case Leaf(l) => [l]
    case Proc(name, body) => Wrap(Open(name), body, End)
    case Iface(body) => Wrap(IfaceOpen, body, IfaceEnd)
  }

  ghost function Wrap(first: Line, body: Items, last: Line): seq<Line>
    decreases body, 1
  {
    [first] + Lines(body) + [last]
  }

  lemma WrapThen(first: Line, body: Items, last: Line, rest: seq<Line>)
    ensures Wrap(first, body, last) + rest == [first] + (Lines(body) + ([last] + rest))
  {}

  /** The leading specification statements and INTERFACE blocks. */
  ghost function SpecPart(items: Items): Items {
    match items
    case Cons(Leaf(Spec(t)), tail) => Cons(Leaf(Spec(t)), SpecPart(tail))
    case Cons(Iface(body), tail) => Cons(Iface(body), SpecPart(tail))
    case _ => Nil
  }

  ghost function AfterSpec(items: Items): Items {
    match items
    case Cons(Leaf(Spec(_)), tail) => AfterSpec(tail)
    case Cons(Iface(_), tail) => AfterSpec(tail)
    case _ => items
  }

  /** What stubbing means: a target keeps its specification part, everything else is kept. */
  ghost function StubItems(targets: set<string>, items: Items): Items {
    match items
    case Nil => Nil
    case Cons(item, tail) => Cons(StubItem(targets, item), StubItems(targets, tail))
  }

  ghost function StubItem(targets: set<string>, item: Item): Item {
    match item
    case Leaf(_) => item
    case Proc(name, body) =>
      if IsTarget(targets, name) then Proc(name, SpecPart(body)) else Proc(name, StubItems(targets, body))
    case Iface(body) => Iface(StubItems(targets, body))
  }

  // ---------------------------------------------------------------- the scanner respects the nesting

  lemma ConsThen(item: Item, more: Items, tail: seq<Line>)
    ensures Lines(Cons(item, more)) + tail == ItemLines(item) + (Lines(more) + tail)
  {}

  lemma {:induction false} IfaceSkips(items: Items, tail: seq<Line>, depth: int)
    requires WellFormed(items) && depth >= 1
    ensures IfaceLength(Lines(items) + tail, depth) == |Lines(items)| + IfaceLength(tail, depth)
    decreases items, 0
  {
    match items
    case Nil => assert Lines(items) + tail == tail;
    case Cons(item, more) =>
      var rest := Lines(more) + tail;
      ConsThen(item, more, tail);
      IfaceSkips(more, tail, depth);
      match item {
        case Leaf(l) => IfaceNext(l, rest, depth);
        case Proc(name, body) => IfaceSkipsWrapped(Open(name), body, End, rest, depth);
        case Iface(body) => IfaceSkipsWrapped(IfaceOpen, body, IfaceEnd, rest, depth);
      }
  }

  lemma {:induction false} IfaceSkipsWrapped(first: Line, body: Items, last: Line, rest: seq<Line>, depth: int)
    requires WellFormed(body) && depth >= 1
    requires (first.Open? && last.End?) || (first.IfaceOpen? && last.IfaceEnd?)
    ensures IfaceLength(Wrap(first, body, last) + rest, depth) == |Wrap(first, body, last)| + IfaceLength(rest, depth)
    decreases body, 1
  {
    var inner := if first.Open? then depth else depth + 1;
    WrapThen(first, body, last, rest);
    IfaceNext(first, Lines(body) + ([last] + rest), depth);
    IfaceSkips(body, [last] + rest, inner);
    IfaceNext(last, rest, inner);
  }

  lemma {:induction false} DropSkips(items: Items, tail: seq<Line>, depth: int)
    requires WellFormed(items) && depth >= 1
    ensures DropLength(Lines(items) + tail, depth) == |Lines(items)| + DropLength(tail, depth)
    ensures Finds(Lines(items) + tail, depth) == Finds(tail, depth)
    decreases items, 0
  {
    match items
    case Nil => assert Lines(items) + tail == tail;
    case Cons(item, more) =>
      var rest := Lines(more) + tail;
      ConsThen(item, more, tail);
      DropSkips(more, tail, depth);
      match item {
        case Leaf(l) => DropNext(l, rest, depth);
        case Proc(name, body) => DropSkipsWrapped(Open(name), body, End, rest, depth);
        case Iface(body) => DropSkipsWrapped(IfaceOpen, body, IfaceEnd, rest, depth);
      }
  }

  lemma {:induction false} DropSkipsWrapped(first: Line, body: Items, last: Line, rest: seq<Line>, depth: int)
    requires WellFormed(body) && depth >= 1
    requires (first.Open? && last.End?) || (first.IfaceOpen? && last.IfaceEnd?)
    ensures DropLength(Wrap(first, body, last) + rest, depth) == |Wrap(first, body, last)| + DropLength(rest, depth)
    ensures Finds(Wrap(first, body, last) + rest, depth) == Finds(rest, depth)
    decreases body, 1
  {
    var inner := if first.Open? then depth + 1 else depth;
    WrapThen(first, body, last, rest);
    DropNext(first, Lines(body) + ([last] + rest), depth);
    DropSkips(body, [last] + rest, inner);
    DropNext(last, rest, inner);
  }

  lemma SpecNextIface(inner: Items, rest: seq<Line>)
    requires WellFormed(inner)
    ensures SpecLength(ItemLines(Iface(inner)) + rest) == |ItemLines(Iface(inner))| + SpecLength(rest)
  {
    var after := Lines(inner) + ([IfaceEnd] + rest);
    WrapThen(IfaceOpen, inner, IfaceEnd, rest);
    IfaceSkips(inner, [IfaceEnd] + rest, 1);
    IfaceNext(IfaceEnd, rest, 1);
    var all := [IfaceOpen] + after;
    assert all[1..] == after;
    assert all == ItemLines(Iface(inner)) + rest;
    assert all[|ItemLines(Iface(inner))|..] == rest;
  }

  /** The scanner takes exactly the specification part of a body. */
  lemma {:induction false} SpecTakes(body: Items, rest: seq<Line>)
    requires WellFormed(body) && rest != [] && rest[0].End?
    ensures SpecLength(Lines(body) + rest) == |Lines(SpecPart(body))|
    decreases body
  {
    if body.Nil? {
      assert Lines(body) + rest == rest;
    } else {
      var item, more := body.head, body.tail;
      ConsThen(item, more, rest);
      if item.Leaf? && item.line.Spec? {
        SpecTakes(more, rest);
      } else if item.Iface? {
        SpecTakes(more, rest);
        SpecNextIface(item.body, Lines(more) + rest);
      } else {
        assert (Lines(body) + rest)[0] == ItemLines(item)[0];
      }
    }
  }

  lemma {:induction false} SpecSplits(body: Items)
    requires WellFormed(body)
    ensures Lines(body) == Lines(SpecPart(body)) + Lines(AfterSpec(body)) && WellFormed(AfterSpec(body))
  {
    match body
    case Cons(Leaf(Spec(t)), more) =>
      SpecSplits(more);
      ConsThen(body.head, SpecPart(more), Lines(AfterSpec(more)));
    case Cons(Iface(inner), more) =>
      SpecSplits(more);
      ConsThen(body.head, SpecPart(more), Lines(AfterSpec(more)));
    case _ =>
  }

  /** Stubbing the lines of a well-nested stream gives the lines of the stubbed stream. */
  lemma {:induction false} StubRespectsNesting(targets: set<string>, items: Items, tail: seq<Line>)
    requires WellFormed(items)
    ensures StubLines(targets, Lines(items) + tail) == Lines(StubItems(targets, items)) + StubLines(targets, tail)
    decreases items, 0
  {
    match items
    case Nil => assert Lines(items) + tail == tail;
    case Cons(item, more) =>
      var rest := Lines(more) + tail;
      ConsThen(item, more, tail);
      StubRespectsNesting(targets, more, tail);
      match item {
        case Leaf(l) =>
        case Proc(name, body) =>
          if IsTarget(targets, name) {
            StubTarget(targets, name, body, rest);
          } else {
            StubWrapped(targets, Open(name), body, End, rest);
          }
        case Iface(body) => StubWrapped(targets, IfaceOpen, body, IfaceEnd, rest);
      }
      ConsThen(StubItem(targets, item), StubItems(targets, more), StubLines(targets, tail));
  }

  lemma {:induction false} StubWrapped(targets: set<string>, first: Line, body: Items, last: Line, rest: seq<Line>)
    requires WellFormed(body) && !(first.Open? && IsTarget(targets, first.name)) && !last.Open?
    ensures StubLines(targets, Wrap(first, body, last) + rest) ==
            Wrap(first, StubItems(targets, body), last) + StubLines(targets, rest)
    decreases body, 1
  {
    WrapThen(first, body, last, rest);
    StubRespectsNesting(targets, body, [last] + rest);
    WrapThen(first, StubItems(targets, body), last, StubLines(targets, rest));
  }

  lemma StubTarget(targets: set<string>, name: string, body: Items, rest: seq<Line>)
    requires WellFormed(body) && IsTarget(targets, name)
    ensures StubLines(targets, Wrap(Open(name), body, End) + rest) ==
            Wrap(Open(name), SpecPart(body), End) + StubLines(targets, rest)
  {
    var kept, dropped, after := Lines(SpecPart(body)), Lines(AfterSpec(body)), [End] + rest;
    var head, gone := [Open(name)] + kept, dropped + [End];
    SpecSplits(body);
    SpecTakes(body, after);
    DropSkips(AfterSpec(body), after, 1);
    DropNext(End, rest, 1);
    TargetParts(Lines(body), kept, dropped, Open(name), rest);
    StubNextTarget(targets, head, gone, rest, true);
    assert Wrap(Open(name), SpecPart(body), End) == head + [End];
  }

  lemma TargetParts(body: seq<Line>, kept: seq<Line>, dropped: seq<Line>, first: Line, rest: seq<Line>)
    requires body == kept + dropped
    ensures ([first] + kept)[1..] + ((dropped + [End]) + rest) == body + ([End] + rest)
    ensures (dropped + [End]) + rest == dropped + ([End] + rest)
    ensures ([first] + body + [End]) + rest == ([first] + kept) + ((dropped + [End]) + rest)
  {}

  // ---------------------------------------------------------------- stubbing twice

  lemma {:induction false} SpecPartTwice(items: Items)
    ensures SpecPart(SpecPart(items)) == SpecPart(items)
  {
    match items
    case Cons(Leaf(Spec(_)), tail) => SpecPartTwice(tail);
    case Cons(Iface(_), tail) => SpecPartTwice(tail);
    case _ =>
  }

  lemma {:induction false} StubItemsTwice(targets: set<string>, items: Items)
    ensures StubItems(targets, StubItems(targets, items)) == StubItems(targets, items)
  {
    match items
    case Nil =>
    case Cons(item, tail) =>
      StubItemsTwice(targets, tail);
      match item {
        case Leaf(_) =>
        case Proc(name, body) =>
          if IsTarget(targets, name) { SpecPartTwice(body); } else { StubItemsTwice(targets, body); }
        case Iface(body) => StubItemsTwice(targets, body);
      }
  }

  lemma {:induction false} StubKeepsWellFormed(targets: set<string>, items: Items)
    requires WellFormed(items)
    ensures WellFormed(StubItems(targets, items))
  {
    match items
    case Nil =>
    case Cons(item, tail) =>
      StubKeepsWellFormed(targets, tail);
      match item {
        case Leaf(_) =>
        case Proc(name, body) =>
          if IsTarget(targets, name) { SpecPartWellFormed(body); } else { StubKeepsWellFormed(targets, body); }
        case Iface(body) => StubKeepsWellFormed(targets, body);
      }
  }

  lemma {:induction false} SpecPartWellFormed(items: Items)
    requires WellFormed(items)
    ensures WellFormed(SpecPart(items))
  {
    match items
    case Cons(Leaf(Spec(_)), tail) => SpecPartWellFormed(tail);
    case Cons(Iface(_), tail) => SpecPartWellFormed(tail);
    case _ =>
  }

  /** On a well-nested stream: the result is well-nested, it is the stream with each target reduced to its opener,
      specification part and END, and stubbing it again changes nothing. */
  lemma StubCorrect(targets: set<string>, items: Items)
    requires WellFormed(items)
    ensures WellFormed(StubItems(targets, items))
    ensures StubLines(targets, Lines(items)) == Lines(StubItems(targets, items))
    ensures StubLines(targets, StubLines(targets, Lines(items))) == StubLines(targets, Lines(items))
  {
    StubKeepsWellFormed(targets, items);
    StubRespectsNesting(targets, items, []);
    StubRespectsNesting(targets, StubItems(targets, items), []);
    StubItemsTwice(targets, items);
    assert Lines(items) + [] == Lines(items);
    assert Lines(StubItems(targets, items)) + [] == Lines(StubItems(targets, items));
  }
}
