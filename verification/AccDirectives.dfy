/** Carrying `!$acc` directives through a parser that drops comments: each logical directive (directive format, section
    2.1 of OpenACC 3.3: a sentinel line with its continuations) becomes one numbered marker call, and the markers that
    survive become the directives again. */
module AccDirectives {
  import opened Options

  /** `Acc` is a sentinel line: `specPart` when its head belongs to the specification part, `continued` when it ends in
      an ampersand.  `Marker` is a marker call, whoever wrote it. */
  datatype Line = Acc(text: string, specPart: bool, continued: bool) | Marker(n: nat) | Plain(text: string)

  type Table = map<nat, seq<Line>>

  /** A line that passes through, or a directive that becomes a marker. */
  datatype Group = Keep(line: Line) | Directive(block: seq<Line>)

  // ---------------------------------------------------------------- encoding

  /** Lines of the directive ahead: each continued line is followed by the next sentinel line. */
  function BlockLength(lines: seq<Line>): (k: nat)
    requires lines != [] && lines[0].Acc?
    ensures 1 <= k <= |lines| && forall i :: 0 <= i < k ==> lines[i].Acc?
  {
    if lines[0].continued && |lines| > 1 && lines[1].Acc? then 1 + BlockLength(lines[1..]) else 1
  }

  function Keeps(lines: seq<Line>): seq<Group> {
    seq(|lines|, i requires 0 <= i < |lines| => Keep(lines[i]))
  }

  ghost function Groups(lines: seq<Line>): seq<Group>
    decreases |lines|
  {
    if lines == [] then []
    else if !lines[0].Acc? then [Keep(lines[0])] + Groups(lines[1..])
    else
      var k := BlockLength(lines);
      (if lines[0].specPart then Keeps(lines[..k]) else [Directive(lines[..k])]) + Groups(lines[k..])
  }

  /** The encoded lines, numbering directives from `c`; one line per group. */
  ghost function Encoded(gs: seq<Group>, c: nat): (r: seq<Line>)
    ensures |r| == |gs|
  {
    if gs == [] then [] else [EncodedLine(gs[0], c)] + Encoded(gs[1..], Next(gs[0], c))
  }

  ghost function EncodedLine(g: Group, c: nat): Line {
    match g
    case Keep(l) => l
    case Directive(_) => Marker(c)
  }

  ghost function Next(g: Group, c: nat): nat {
    if g.Directive? then c + 1 else c
  }

  ghost function Directives(gs: seq<Group>): nat {
    if gs == [] then 0 else (if gs[0].Directive? then 1 else 0) + Directives(gs[1..])
  }

  /** The table's entries for the directives of `gs`. */
  ghost function Entries(gs: seq<Group>, c: nat): Table {
    if gs == [] then map[]
    else match gs[0]
      case Keep(_) => Entries(gs[1..], c)
      case Directive(b) => Entries(gs[1..], c + 1)[c := b]
  }

  ghost function AllGroups(files: seq<seq<Line>>): seq<Group> {
    if files == [] then [] else Groups(files[0]) + AllGroups(files[1..])
  }

  // ---------------------------------------------------------------- decoding

  function DecodeLine(line: Line, table: Table): seq<Line> {
    if line.Marker? && line.n in table then table[line.n] else [line]
  }

  function DecodeLines(lines: seq<Line>, table: Table): seq<Line> {
    if lines == [] then [] else DecodeLine(lines[0], table) + DecodeLines(lines[1..], table)
  }

  /** `decode_acc_directives`. */
  method Decode(lines: seq<Line>, table: Table) returns (out: seq<Line>)
    ensures out == DecodeLines(lines, table)
  {
    out := [];
    for i := 0 to |lines|
      invariant DecodeLines(lines, table) == out + DecodeLines(lines[i..], table)
    {
      assert lines[i..][0] == lines[i] && lines[i..][1..] == lines[i + 1..];
      out := out + DecodeLine(lines[i], table);
    }
    assert lines[|lines|..] == [];
  }

  // ---------------------------------------------------------------- the groups are the lines

  ghost function GroupLines(g: Group): seq<Line> {
    match g
    case Keep(l) => [l]
    case Directive(b) => b
  }

  ghost function Expand(gs: seq<Group>): seq<Line> {
    if gs == [] then [] else GroupLines(gs[0]) + Expand(gs[1..])
  }

  lemma {:induction false} ExpandConcat(a: seq<Group>, b: seq<Group>)
    ensures Expand(a + b) == Expand(a) + Expand(b)
    decreases |a|
  {
    if a == [] {
      assert a + b == b;
    } else {
      assert (a + b)[1..] == a[1..] + b;
      ExpandConcat(a[1..], b);
    }
  }

  lemma {:induction false} ExpandKeeps(lines: seq<Line>)
    ensures Expand(Keeps(lines)) == lines
  {
    if lines != [] {
      assert Keeps(lines)[1..] == Keeps(lines[1..]);
      ExpandKeeps(lines[1..]);
    }
  }

  lemma ExpandOne(g: Group)
    ensures Expand([g]) == GroupLines(g)
  {
    assert [g][1..] == [];
  }

  lemma {:induction false} GroupsExpand(lines: seq<Line>)
    ensures Expand(Groups(lines)) == lines
    decreases |lines|
  {
    if lines != [] {
      if !lines[0].Acc? {
        GroupsExpand(lines[1..]);
        ExpandConcat([Keep(lines[0])], Groups(lines[1..]));
        ExpandOne(Keep(lines[0]));
      } else {
        var k := BlockLength(lines);
        GroupsExpand(lines[k..]);
        ExpandKeeps(lines[..k]);
        ExpandOne(Directive(lines[..k]));
        var first := if lines[0].specPart then Keeps(lines[..k]) else [Directive(lines[..k])];
        ExpandConcat(first, Groups(lines[k..]));
      }
    }
  }

  /** The source's own marker lines, as far as the table would expand them. */
  ghost predicate NoOwnMarkers(gs: seq<Group>, table: Table) {
    forall g :: g in gs && g.Keep? && g.line.Marker? ==> g.line.n !in table
  }

  ghost predicate LinesNoOwnMarkers(lines: seq<Line>, table: Table) {
    forall l :: l in lines && l.Marker? ==> l.n !in table
  }

  /** Blocks of the table start with a sentinel line. */
  ghost predicate BlocksAcc(gs: seq<Group>) {
    forall g :: g in gs && g.Directive? ==> g.block != [] && forall l :: l in g.block ==> l.Acc?
  }

  lemma {:induction false} GroupsShape(lines: seq<Line>)
    ensures BlocksAcc(Groups(lines))
    ensures forall l :: l in lines && l.Marker? ==> Keep(l) in Groups(lines)
    ensures forall g :: g in Groups(lines) && g.Keep? ==> g.line in lines
    decreases |lines|
  {
    if lines != [] {
      if !lines[0].Acc? {
        GroupsShape(lines[1..]);
      } else {
        var k := BlockLength(lines);
        GroupsShape(lines[k..]);
        assert lines == lines[..k] + lines[k..];
        var first := if lines[0].specPart then Keeps(lines[..k]) else [Directive(lines[..k])];
        assert Groups(lines) == first + Groups(lines[k..]);
        forall l | l in lines && l.Marker? ensures Keep(l) in Groups(lines) {
          assert l in lines[k..];
        }
        forall g | g in Groups(lines) && g.Keep? ensures g.line in lines {
          if g in first {
            assert g.line in lines[..k];
          }
        }
      }
    }
  }

  // ---------------------------------------------------------------- decoding undoes encoding

  /** The table holds the entries of these groups. */
  ghost predicate Holds(table: Table, gs: seq<Group>, c: nat) {
    forall n :: n in Entries(gs, c) ==> n in table && table[n] == Entries(gs, c)[n]
  }

  lemma {:induction false} EntriesRange(gs: seq<Group>, c: nat)
    ensures forall n :: n in Entries(gs, c) <==> c <= n < c + Directives(gs)
    decreases |gs|
  {
    if gs != [] {
      EntriesRange(gs[1..], if gs[0].Directive? then c + 1 else c);
    }
  }

  lemma HoldsTail(table: Table, gs: seq<Group>, c: nat)
    requires gs != [] && Holds(table, gs, c)
    ensures Holds(table, gs[1..], if gs[0].Directive? then c + 1 else c)
    ensures gs[0].Directive? ==> c in table && table[c] == gs[0].block
  {
    if gs[0].Directive? {
      EntriesRange(gs[1..], c + 1);
      assert forall n :: n in Entries(gs[1..], c + 1) ==> n != c && Entries(gs, c)[n] == Entries(gs[1..], c + 1)[n];
      assert c in Entries(gs, c);
    }
  }

  /** Keep the lines, or groups, whose flag is set. */
  ghost function Select<T>(flags: seq<bool>, s: seq<T>): seq<T>
    requires |flags| == |s|
  {
    if s == [] then [] else (if flags[0] then [s[0]] else []) + Select(flags[1..], s[1..])
  }

  /** Whatever lines survive, decoding gives the groups they came from, each directive whole. */
  lemma {:induction false} DecodeSurvivors(gs: seq<Group>, c: nat, table: Table, flags: seq<bool>)
    requires Holds(table, gs, c) && NoOwnMarkers(gs, table) && |flags| == |gs|
    ensures DecodeLines(Select(flags, Encoded(gs, c)), table) == Expand(Select(flags, gs))
    decreases |gs|
  {
    if gs != [] {
      var c' := if gs[0].Directive? then c + 1 else c;
      HoldsTail(table, gs, c);
      assert gs[0] in gs;
      DecodeSurvivors(gs[1..], c', table, flags[1..]);
      var e := Encoded(gs, c);
      assert e[1..] == Encoded(gs[1..], c');
      var lines, groups := Select(flags[1..], e[1..]), Select(flags[1..], gs[1..]);
      if flags[0] {
        assert ([e[0]] + lines)[1..] == lines && ([gs[0]] + groups)[1..] == groups;
        assert DecodeLine(e[0], table) == GroupLines(gs[0]);
      } else {
        assert [] + lines == lines && [] + groups == groups;
      }
    }
  }

  /** Decoding an encoded file gives the file back exactly when the file has no marker of its own that the table
      knows. */
  lemma {:induction false} DecodeInvertsIff(gs: seq<Group>, c: nat, table: Table)
    requires Holds(table, gs, c) && forall n :: n in table ==> table[n] != [] && table[n][0].Acc?
    ensures DecodeLines(Encoded(gs, c), table) == Expand(gs) <==> NoOwnMarkers(gs, table)
    decreases |gs|
  {
    if gs != [] {
      var c' := if gs[0].Directive? then c + 1 else c;
      HoldsTail(table, gs, c);
      DecodeInvertsIff(gs[1..], c', table);
      var e := Encoded(gs, c);
      assert e[1..] == Encoded(gs[1..], c');
      var first, rest := DecodeLine(e[0], table), DecodeLines(e[1..], table);
      if gs[0].Keep? && gs[0].line.Marker? && gs[0].line.n in table {
        assert gs[0] in gs;
        var decoded, source := first + rest, Expand(gs);
        assert decoded[0].Acc? && source[0].Marker?;
      } else {
        assert first == GroupLines(gs[0]);
        assert first + rest == first + Expand(gs[1..]) <==> rest == Expand(gs[1..]) by {
          if first + rest == first + Expand(gs[1..]) {
            assert rest == (first + rest)[|first|..] == (first + Expand(gs[1..]))[|first|..] == Expand(gs[1..]);
          }
        }
        assert forall g :: g in gs <==> g == gs[0] || g in gs[1..];
      }
    }
  }

  // ---------------------------------------------------------------- numbering

  ghost function MarkerNumbers(lines: seq<Line>): seq<nat> {
    if lines == [] then [] else (if lines[0].Marker? then [lines[0].n] else []) + MarkerNumbers(lines[1..])
  }

  ghost function Range(c: nat, n: nat): seq<nat> {
    seq(n, i requires 0 <= i => c + i)
  }

  /** The markers of an encoded text are the numbers from `c` on, in order, each once. */
  lemma {:induction false} NumberedOnce(gs: seq<Group>, c: nat)
    requires forall g :: g in gs && g.Keep? ==> !g.line.Marker?
    ensures MarkerNumbers(Encoded(gs, c)) == Range(c, Directives(gs))
    decreases |gs|
  {
    if gs != [] {
      var c' := if gs[0].Directive? then c + 1 else c;
      NumberedOnce(gs[1..], c');
      var e := Encoded(gs, c);
      assert e[1..] == Encoded(gs[1..], c');
      assert gs[0] in gs;
    }
  }

  // ---------------------------------------------------------------- whole sets of files

  lemma {:induction false} EncodedConcat(a: seq<Group>, b: seq<Group>, c: nat)
    ensures Encoded(a + b, c) == Encoded(a, c) + Encoded(b, c + Directives(a))
    ensures Directives(a + b) == Directives(a) + Directives(b)
    decreases |a|
  {
    if a == [] {
      assert a + b == b;
    } else {
      assert (a + b)[1..] == a[1..] + b;
      var h, c' := EncodedLine(a[0], c), Next(a[0], c);
      EncodedConcat(a[1..], b, c');
      Regroup([h], Encoded(a[1..], c'), Encoded(b, c' + Directives(a[1..])));
    }
  }

  lemma {:induction false} EntriesConcat(a: seq<Group>, b: seq<Group>, c: nat)
    ensures Entries(a + b, c) == Entries(a, c) + Entries(b, c + Directives(a))
    decreases |a|
  {
    if a == [] {
      assert a + b == b;
    } else {
      assert (a + b)[1..] == a[1..] + b;
      if a[0].Keep? {
        EntriesConcat(a[1..], b, c);
      } else {
        EntriesConcat(a[1..], b, c + 1);
        var rest := Entries(b, c + Directives(a));
        EntriesRange(b, c + Directives(a));
        UpdateLeft(Entries(a[1..], c + 1), rest, c, a[0].block);
      }
    }
  }

  lemma Regroup(a: seq<Line>, b: seq<Line>, c: seq<Line>)
    ensures a + (b + c) == (a + b) + c
  {
  }

  lemma UpdateLeft(a: Table, b: Table, n: nat, v: seq<Line>)
    requires n !in b
    ensures (a + b)[n := v] == a[n := v] + b
  {
  }

  /** The number of the first directive of file `k`. */
  ghost function Start(files: seq<seq<Line>>, k: nat): nat
    requires k <= |files|
  {
    Directives(AllGroups(files[..k]))
  }

  lemma {:induction false} AllGroupsSnoc(files: seq<seq<Line>>, f: seq<Line>)
    ensures AllGroups(files + [f]) == AllGroups(files) + Groups(f)
    decreases |files|
  {
    if files == [] {
      assert [f][1..] == [];
    } else {
      assert (files + [f])[1..] == files[1..] + [f];
      AllGroupsSnoc(files[1..], f);
    }
  }

  // ---------------------------------------------------------------- one line at a time

  /** What has been read of a file: the lines written, the table, the next number, and, behind a sentinel line that goes
      on, whether its directive went into the table. */
  datatype Reading = Reading(out: seq<Line>, table: Table, counter: nat, open: Option<bool>)

  /** A sentinel line goes with the directive that is open; without one it starts a directive, which goes into the table
      unless it is one of the specification part. */
  ghost function ReadLine(r: Reading, l: Line): Reading {
    if !l.Acc? then r.(out := r.out + [l], open := None)
    else
      var taken := if r.open.Some? then r.open.value else !l.specPart;
      var next := if l.continued then Some(taken) else None;
      if !taken then r.(out := r.out + [l], open := next)
      else if r.open.None? then
        Reading(r.out + [Marker(r.counter)], r.table[r.counter := [l]], r.counter + 1, next)
      else if r.counter > 0 && r.counter - 1 in r.table then
        r.(table := r.table[r.counter - 1 := r.table[r.counter - 1] + [l]], open := next)
      else r.(open := next)
  }

  ghost function ReadLines(r: Reading, lines: seq<Line>): Reading
    decreases |lines|
  {
    if lines == [] then r else ReadLines(ReadLine(r, lines[0]), lines[1..])
  }

  /** A file, from its first line. */
  ghost function ReadFile(lines: seq<Line>, counter: nat, table: Table): Reading {
    ReadLines(Reading([], table, counter, None), lines)
  }

  lemma {:induction false} ReadConcat(r: Reading, a: seq<Line>, b: seq<Line>)
    ensures ReadLines(r, a + b) == ReadLines(ReadLines(r, a), b)
    decreases |a|
  {
    if a == [] {
      assert a + b == b;
    } else {
      assert (a + b)[0] == a[0] && (a + b)[1..] == a[1..] + b;
      ReadConcat(ReadLine(r, a[0]), a[1..], b);
    }
  }

  /** The lines behind the first of a directive. */
  lemma {:induction false} ReadRest(r: Reading, block: seq<Line>, taken: bool, entry: seq<Line>)
    requires block != [] ==> r.open == Some(taken)
    requires Chained(block)
    requires taken ==> r.counter > 0 && r.counter - 1 in r.table && r.table[r.counter - 1] == entry
    ensures var r' := ReadLines(r, block);
            && r'.out == (if taken then r.out else r.out + block)
            && r'.table == (if taken then r.table[r.counter - 1 := entry + block] else r.table)
            && r'.counter == r.counter
            && r'.open == (if block == [] then r.open
                           else if block[|block| - 1].continued then Some(taken) else None)
    decreases |block|
  {
    if block == [] {
      assert entry + block == entry && r.out + block == r.out;
      assert taken ==> r.table[r.counter - 1 := entry] == r.table;
    } else {
      var r1 := ReadLine(r, block[0]);
      ChainedTail(block);
      ReadRest(r1, block[1..], taken, entry + [block[0]]);
      assert (entry + [block[0]]) + block[1..] == entry + block;
      assert (r.out + [block[0]]) + block[1..] == r.out + block;
    }
  }

  /** A directive, or a line that is none. */
  lemma ReadBlock(r: Reading, block: seq<Line>)
    requires block != [] && (r.open.None? || !block[0].Acc?) && if block[0].Acc? then Chained(block) else |block| == 1
    ensures AddsBlock(r, ReadLines(r, block), block)
    ensures ReadLines(r, block).open.Some? ==> block[|block| - 1].Acc? && block[|block| - 1].continued
  {
    if block[0].Acc? {
      ReadDirective(r, block);
    } else {
      assert block == [block[0]] && block[1..] == [];
    }
  }

  lemma ReadDirective(r: Reading, block: seq<Line>)
    requires block != [] && r.open.None? && Chained(block)
    ensures AddsBlock(r, ReadLines(r, block), block)
    ensures ReadLines(r, block).open.Some? ==> block[|block| - 1].continued
  {
    var r1, rest := ReadLine(r, block[0]), block[1..];
    ChainedTail(block);
    ReadRest(r1, rest, !block[0].specPart, [block[0]]);
    assert block == [block[0]] + rest;
    AddsRest(r, r1, ReadLines(r1, rest), block[0], rest);
    assert rest != [] ==> rest[|rest| - 1] == block[|block| - 1];
  }

  lemma ChainedTail(block: seq<Line>)
    requires block != [] && Chained(block)
    ensures Chained(block[1..]) && (block[1..] != [] ==> block[0].continued) && block[0].Acc?
  {
    assert forall i :: 0 <= i < |block| - 1 ==> block[1..][i] == block[i + 1];
  }

  lemma AddsRest(r: Reading, r1: Reading, r': Reading, l: Line, rest: seq<Line>)
    requires l.Acc? && r.open.None? && r1 == ReadLine(r, l)
    requires r'.out == (if !l.specPart then r1.out else r1.out + rest) && r'.counter == r1.counter
    requires !l.specPart ==> r1.counter > 0
    requires r'.table == if !l.specPart then r1.table[r1.counter - 1 := [l] + rest] else r1.table
    ensures AddsBlock(r, r', [l] + rest)
  {
    assert (r.out + [l]) + rest == r.out + ([l] + rest);
  }

  ghost predicate AddsBlock(r: Reading, r': Reading, block: seq<Line>)
    requires block != []
  {
    var taken := block[0].Acc? && !block[0].specPart;
    && r'.out == r.out + (if taken then [Marker(r.counter)] else block)
    && r'.table == (if taken then r.table[r.counter := block] else r.table)
    && r'.counter == r.counter + (if taken then 1 else 0)
  }

  /** Sentinel lines, each but the last going on. */
  ghost predicate Chained(block: seq<Line>) {
    forall i :: 0 <= i < |block| ==> block[i].Acc? && (i < |block| - 1 ==> block[i].continued)
  }

  /** `BlockLength` takes a whole directive: as long as it goes on. */
  lemma {:induction false} WholeBlock(lines: seq<Line>)
    requires lines != [] && lines[0].Acc?
    ensures var k := BlockLength(lines);
            Chained(lines[..k]) && (k < |lines| && lines[k].Acc? ==> !lines[k - 1].continued)
    decreases |lines|
  {
    if lines[0].continued && |lines| > 1 && lines[1].Acc? {
      var k := BlockLength(lines[1..]);
      WholeBlock(lines[1..]);
      assert lines[..k + 1] == [lines[0]] + lines[1..][..k];
    }
  }

  /** The groups give what reading line by line gives. */
  lemma {:induction false} ReadGroups(r: Reading, lines: seq<Line>)
    requires r.open.Some? && lines != [] ==> !lines[0].Acc?
    ensures var r', gs := ReadLines(r, lines), Groups(lines);
            && r'.out == r.out + Encoded(gs, r.counter) && r'.counter == r.counter + Directives(gs)
            && r'.table == r.table + Entries(gs, r.counter)
    decreases |lines|
  {
    if lines != [] {
      var k := if lines[0].Acc? then BlockLength(lines) else 1;
      var block, rest := lines[..k], lines[k..];
      assert lines == block + rest && block[0] == lines[0];
      if lines[0].Acc? {
        WholeBlock(lines);
      }
      ReadConcat(r, block, rest);
      ReadBlock(r, block);
      var r1 := ReadLines(r, block);
      assert block[|block| - 1] == lines[k - 1] && (rest != [] ==> rest[0] == lines[k]);
      ReadGroups(r1, rest);
      FirstGroups(lines, k, r.counter);
      AddFirst(r, r1, HeadGroups(block), Groups(rest), block);
    }
  }

  lemma FirstGroups(lines: seq<Line>, k: nat, c: nat)
    requires lines != [] && k == if lines[0].Acc? then BlockLength(lines) else 1
    ensures Groups(lines) == HeadGroups(lines[..k]) + Groups(lines[k..])
  {
    GroupsAhead(lines, 0, k);
    assert lines[0..] == lines && lines[0..k] == lines[..k];
  }

  lemma AddFirst(r: Reading, r1: Reading, first: seq<Group>, ahead: seq<Group>, block: seq<Line>)
    requires block != [] && first == HeadGroups(block)
    requires AddsBlock(r, r1, block)
    ensures r1.out + Encoded(ahead, r1.counter) == r.out + Encoded(first + ahead, r.counter)
    ensures r1.counter + Directives(ahead) == r.counter + Directives(first + ahead)
    ensures r1.table + Entries(ahead, r1.counter) == r.table + Entries(first + ahead, r.counter)
  {
    FirstAdds(r, r1, block);
    EncodedConcat(first, ahead, r.counter);
    EntriesConcat(first, ahead, r.counter);
    Regroup(r.out, Encoded(first, r.counter), Encoded(ahead, r1.counter));
  }

  lemma FirstAdds(r: Reading, r1: Reading, block: seq<Line>)
    requires block != [] && AddsBlock(r, r1, block)
    ensures var first := HeadGroups(block);
            && r1.out == r.out + Encoded(first, r.counter) && r1.counter == r.counter + Directives(first)
            && r1.table == r.table + Entries(first, r.counter)
  {
    EncodedKeeps(block, r.counter);
    assert [Directive(block)][1..] == [];
  }

  // ---------------------------------------------------------------- whole directives

  /** An entry of the table: a directive that does not start in the specification part. */
  ghost predicate Entry(block: seq<Line>) {
    block != [] && Chained(block) && !block[0].specPart
  }

  /** Sentinel lines left in the output that do not start in the specification part go on from the line above. */
  ghost predicate LeftTogether(out: seq<Line>) {
    forall i :: 0 <= i < |out| && out[i].Acc? && !out[i].specPart ==>
      i > 0 && out[i - 1].Acc? && out[i - 1].continued
  }

  /** What holds between two lines. */
  ghost predicate Sound(r: Reading) {
    && (forall n :: n in r.table ==> Entry(r.table[n])) && LeftTogether(r.out)
    && (r.open == Some(true) ==> OpenEntry(r))
    && (r.open == Some(false) ==> r.out != [] && r.out[|r.out| - 1].Acc? && r.out[|r.out| - 1].continued)
  }

  /** The newest entry goes on. */
  ghost predicate OpenEntry(r: Reading) {
    r.counter > 0 && r.counter - 1 in r.table &&
    var entry := r.table[r.counter - 1]; entry != [] && entry[|entry| - 1].Acc? && entry[|entry| - 1].continued
  }

  lemma SoundNext(r: Reading, l: Line)
    requires Sound(r)
    ensures Sound(ReadLine(r, l))
  {
    var r' := ReadLine(r, l);
    forall i | 0 <= i < |r'.out| && r'.out[i].Acc? && !r'.out[i].specPart
      ensures i > 0 && r'.out[i - 1].Acc? && r'.out[i - 1].continued
    {
      if i < |r.out| {
        assert r'.out[i] == r.out[i];
      }
    }
  }

  lemma {:induction false} SoundLines(r: Reading, lines: seq<Line>)
    requires Sound(r)
    ensures Sound(ReadLines(r, lines))
    decreases |lines|
  {
    if lines != [] {
      SoundNext(r, lines[0]);
      SoundLines(ReadLine(r, lines[0]), lines[1..]);
    }
  }

  /** `encode_acc_directives`: one counter and one table for all the files. */
  method Encode(files: seq<seq<Line>>) returns (outs: seq<seq<Line>>, table: Table)
    ensures |outs| == |files| && table == Entries(AllGroups(files), 0)
    ensures forall k :: 0 <= k < |files| ==> outs[k] == Encoded(Groups(files[k]), Start(files, k))
    ensures ReadFiles(files, |files|) == Written(outs, table)
    ensures AllSound(Written(outs, table))
  {
    outs, table := [], map[];
    var counter := 0;
    for k := 0 to |files|
      invariant counter == Start(files, k) && ReadsAs(files, k, Written(outs, table))
    {
      NextFile(files, k);
      var out;
      out, counter, table := EncodeFile(files[k], counter, table);
      outs := outs + [out];
    }
    assert files[..|files|] == files;
    LineByLine(files, outs, table);
  }

  lemma LineByLine(files: seq<seq<Line>>, outs: seq<seq<Line>>, table: Table)
    requires ReadsAs(files, |files|, Written(outs, table))
    ensures ReadFiles(files, |files|) == Written(outs, table) && AllSound(Written(outs, table))
  {
    FilesRead(files, |files|);
    FilesSound(files, |files|);
    assert outs == ReadFiles(files, |files|).outs;
  }

  datatype Written = Written(outs: seq<seq<Line>>, table: Table)

  /** All the files, each read line by line from where the one before has left the table. */
  ghost function ReadFiles(files: seq<seq<Line>>, k: nat): Written
    requires k <= |files|
  {
    if k == 0 then Written([], map[])
    else
      var before := ReadFiles(files, k - 1);
      var r := ReadFile(files[k - 1], Started(files, k - 1), before.table);
      Written(before.outs + [r.out], r.table)
  }

  /** The counter when file `k` is begun. */
  ghost function Started(files: seq<seq<Line>>, k: nat): nat
    requires k <= |files|
  {
    if k == 0 then 0 else ReadFile(files[k - 1], Started(files, k - 1), map[]).counter
  }

  lemma {:induction false} StartedAt(files: seq<seq<Line>>, k: nat)
    requires k <= |files|
    ensures Started(files, k) == Start(files, k)
    decreases k
  {
    if k > 0 {
      StartedAt(files, k - 1);
      NextFile(files, k - 1);
      ReadGroups(Reading([], map[], Start(files, k - 1), None), files[k - 1]);
    }
  }

  lemma {:induction false} FilesRead(files: seq<seq<Line>>, k: nat)
    requires k <= |files|
    ensures ReadsAs(files, k, ReadFiles(files, k))
    decreases k
  {
    if k > 0 {
      FilesRead(files, k - 1);
      StartedAt(files, k - 1);
      NextRead(files, k, ReadFiles(files, k - 1));
    }
  }

  lemma NextRead(files: seq<seq<Line>>, k: nat, before: Written)
    requires 0 < k <= |files| && ReadsAs(files, k - 1, before)
    ensures var r := ReadFile(files[k - 1], Start(files, k - 1), before.table);
            ReadsAs(files, k, Written(before.outs + [r.out], r.table))
  {
    NextFile(files, k - 1);
    FileRead(files[k - 1], Start(files, k - 1), before.table);
  }

  lemma FileRead(lines: seq<Line>, c: nat, table: Table)
    ensures var r := ReadFile(lines, c, table);
            r.out == Encoded(Groups(lines), c) && r.table == table + Entries(Groups(lines), c)
  {
    ReadGroups(Reading([], table, c, None), lines);
  }

  ghost predicate ReadsAs(files: seq<seq<Line>>, k: nat, w: Written)
    requires k <= |files|
  {
    && |w.outs| == k && w.table == Entries(AllGroups(files[..k]), 0)
    && forall j :: 0 <= j < k ==> w.outs[j] == Encoded(Groups(files[j]), Start(files, j))
  }

  ghost predicate AllSound(w: Written) {
    (forall n :: n in w.table ==> Entry(w.table[n])) && forall j :: 0 <= j < |w.outs| ==> LeftTogether(w.outs[j])
  }

  lemma {:induction false} FilesSound(files: seq<seq<Line>>, k: nat)
    requires k <= |files|
    ensures AllSound(ReadFiles(files, k))
    decreases k
  {
    if k > 0 {
      FilesSound(files, k - 1);
      var first := Reading([], ReadFiles(files, k - 1).table, Started(files, k - 1), None);
      assert Sound(first);
      SoundLines(first, files[k - 1]);
    }
  }

  lemma NextFile(files: seq<seq<Line>>, k: nat)
    requires k < |files|
    ensures Start(files, k + 1) == Start(files, k) + Directives(Groups(files[k]))
    ensures Entries(AllGroups(files[..k + 1]), 0) ==
            Entries(AllGroups(files[..k]), 0) + Entries(Groups(files[k]), Start(files, k))
  {
    assert files[..k + 1] == files[..k] + [files[k]];
    AllGroupsSnoc(files[..k], files[k]);
    EncodedConcat(AllGroups(files[..k]), Groups(files[k]), 0);
    EntriesConcat(AllGroups(files[..k]), Groups(files[k]), 0);
  }

  /** The inner loop, over the lines of one file. */
  method EncodeFile(lines: seq<Line>, first: nat, before: Table) returns (out: seq<Line>, counter: nat, table: Table)
    ensures out == Encoded(Groups(lines), first)
    ensures counter == first + Directives(Groups(lines))
    ensures table == before + Entries(Groups(lines), first)
  {
    out, counter, table := [], first, before;
    var i := 0;
    while i < |lines|
      invariant 0 <= i <= |lines|
      invariant Progress(Groups(lines), Groups(lines[i..]), first, out, counter, before, table)
    {
      out, counter, table, i := EncodeOne(lines, i, out, counter, table, Groups(lines), first, before);
    }
    assert lines[|lines|..] == [];
  }

  /** The body of the loop: a line, or a directive with its continuations. */
  method EncodeOne(lines: seq<Line>, i: nat, out: seq<Line>, counter: nat, table: Table, ghost all: seq<Group>,
                   ghost first: nat, ghost before: Table)
    returns (out': seq<Line>, counter': nat, table': Table, j: nat)
    requires i < |lines| && Progress(all, Groups(lines[i..]), first, out, counter, before, table)
    ensures i < j <= |lines| && Progress(all, Groups(lines[j..]), first, out', counter', before, table')
  {
    j := i + 1;
    if lines[i].Acc? {
      j := BlockEnd(lines, i);
    }
    var block := lines[i..j];
    GroupsAhead(lines, i, j);
    if block[0].Acc? && !block[0].specPart {
      AdvanceDirective(all, block, Groups(lines[j..]), first, out, counter, before, table);
      out', counter', table' := out + [Marker(counter)], counter + 1, table[counter := block];
    } else {
      AdvanceKeeps(all, block, Groups(lines[j..]), first, out, counter, before, table);
      out', counter', table' := out + block, counter, table;
    }
  }

  /** The loop over continuation lines. */
  method BlockEnd(lines: seq<Line>, i: nat) returns (j: nat)
    requires i < |lines| && lines[i].Acc?
    ensures j == i + BlockLength(lines[i..])
  {
    j := i + 1;
    while lines[j - 1].continued && j < |lines| && lines[j].Acc?
      invariant i < j <= |lines| && lines[j - 1].Acc?
      invariant j - 1 + BlockLength(lines[j - 1..]) == i + BlockLength(lines[i..])
    {
      assert lines[j - 1..][1..] == lines[j..];
      j := j + 1;
    }
  }

  /** The groups of the first lines ahead. */
  ghost function HeadGroups(block: seq<Line>): seq<Group>
    requires block != []
  {
    if block[0].Acc? && !block[0].specPart then [Directive(block)] else Keeps(block)
  }

  lemma GroupsAhead(lines: seq<Line>, i: nat, j: nat)
    requires i < |lines| && j == if lines[i].Acc? then i + BlockLength(lines[i..]) else i + 1
    ensures i < j <= |lines| && Groups(lines[i..]) == HeadGroups(lines[i..j]) + Groups(lines[j..])
  {
    var ahead := lines[i..];
    assert ahead[0] == lines[i] && ahead[j - i..] == lines[j..] && ahead[..j - i] == lines[i..j];
    assert !lines[i].Acc? ==> Keeps(lines[i..j]) == [Keep(lines[i])];
  }

  lemma {:induction false} EncodedKeeps(lines: seq<Line>, c: nat)
    ensures Encoded(Keeps(lines), c) == lines && Directives(Keeps(lines)) == 0 && Entries(Keeps(lines), c) == map[]
  {
    if lines != [] {
      assert Keeps(lines)[1..] == Keeps(lines[1..]);
      EncodedKeeps(lines[1..], c);
    }
  }

  /** What the groups ahead add to what has been written makes the whole. */
  ghost predicate Progress(all: seq<Group>, ahead: seq<Group>, first: nat, out: seq<Line>, counter: nat, before: Table,
                           table: Table)
  {
    && Encoded(all, first) == out + Encoded(ahead, counter)
    && first + Directives(all) == counter + Directives(ahead)
    && before + Entries(all, first) == table + Entries(ahead, counter)
  }

  lemma AdvanceKeeps(all: seq<Group>, block: seq<Line>, ahead: seq<Group>, first: nat, out: seq<Line>, counter: nat,
                     before: Table, table: Table)
    requires Progress(all, Keeps(block) + ahead, first, out, counter, before, table)
    ensures Progress(all, ahead, first, out + block, counter, before, table)
  {
    EncodedKeeps(block, counter);
    EncodedConcat(Keeps(block), ahead, counter);
    EntriesConcat(Keeps(block), ahead, counter);
    assert map[] + Entries(ahead, counter) == Entries(ahead, counter);
  }

  lemma AdvanceDirective(all: seq<Group>, block: seq<Line>, ahead: seq<Group>, first: nat, out: seq<Line>, counter: nat,
                         before: Table, table: Table)
    requires Progress(all, [Directive(block)] + ahead, first, out, counter, before, table)
    ensures Progress(all, ahead, first, out + [Marker(counter)], counter + 1, before, table[counter := block])
  {
    assert ([Directive(block)] + ahead)[1..] == ahead;
    var rest := Entries(ahead, counter + 1);
    EntriesRange(ahead, counter + 1);
    assert table + rest[counter := block] == table[counter := block] + rest;
  }

  lemma {:induction false} AllGroupsConcat(a: seq<seq<Line>>, b: seq<seq<Line>>)
    ensures AllGroups(a + b) == AllGroups(a) + AllGroups(b)
    decreases |a|
  {
    if a == [] {
      assert a + b == b;
    } else {
      assert (a + b)[1..] == a[1..] + b;
      AllGroupsConcat(a[1..], b);
    }
  }

  lemma EntriesMiddle(before: seq<Group>, here: seq<Group>, after: seq<Group>)
    ensures Holds(Entries(before + (here + after), 0), here, Directives(before))
  {
    var c := Directives(before);
    EntriesConcat(before, here + after, 0);
    EntriesConcat(here, after, c);
    EntriesRange(here, c);
    EntriesRange(after, c + Directives(here));
  }

  /** The common table holds the entries of each file's directives. */
  lemma TableHolds(files: seq<seq<Line>>, k: nat)
    requires k < |files|
    ensures Holds(Entries(AllGroups(files), 0), Groups(files[k]), Start(files, k))
  {
    assert files == files[..k] + files[k..];
    AllGroupsConcat(files[..k], files[k..]);
    assert files[k..][1..] == files[k + 1..];
    EntriesMiddle(AllGroups(files[..k]), Groups(files[k]), AllGroups(files[k + 1..]));
  }

  lemma {:induction false} EntriesAcc(gs: seq<Group>, c: nat)
    requires BlocksAcc(gs)
    ensures forall n :: n in Entries(gs, c) ==> Entries(gs, c)[n] != [] && Entries(gs, c)[n][0].Acc?
    decreases |gs|
  {
    if gs != [] {
      assert gs[0] in gs;
      assert gs[0].Directive? ==> gs[0].block[0] in gs[0].block;
      EntriesAcc(gs[1..], if gs[0].Directive? then c + 1 else c);
    }
  }

  lemma {:induction false} AllBlocksAcc(files: seq<seq<Line>>)
    ensures BlocksAcc(AllGroups(files))
    decreases |files|
  {
    if files != [] {
      GroupsShape(files[0]);
      AllBlocksAcc(files[1..]);
    }
  }

  /** Decoding each encoded file with the common table gives the file back, exactly when none of its own lines is a
      marker the table knows. */
  lemma RoundTrip(files: seq<seq<Line>>, k: nat)
    requires k < |files|
    ensures var table := Entries(AllGroups(files), 0);
            DecodeLines(Encoded(Groups(files[k]), Start(files, k)), table) == files[k] <==>
                LinesNoOwnMarkers(files[k], table)
  {
    var table, gs := Entries(AllGroups(files), 0), Groups(files[k]);
    TableHolds(files, k);
    AllBlocksAcc(files);
    EntriesAcc(AllGroups(files), 0);
    DecodeInvertsIff(gs, Start(files, k), table);
    GroupsExpand(files[k]);
    GroupsShape(files[k]);
    if NoOwnMarkers(gs, table) {
      forall l | l in files[k] && l.Marker? ensures l.n !in table {
        assert Keep(l) in gs;
      }
    }
  }

  /** The last line of a group goes on in the first of the next. */
  ghost predicate GoesOn(g: Group, g': Group) {
    var lines, lines' := GroupLines(g), GroupLines(g');
    && lines != [] && lines[|lines| - 1].Acc? && lines[|lines| - 1].continued
    && lines' != [] && lines'[0].Acc?
  }

  /** Directives are cut out whole: none starts behind a sentinel line that goes on, or stops where it goes on. */
  ghost predicate WholeGroups(gs: seq<Group>) {
    && (forall k :: 0 <= k < |gs| && gs[k].Directive? ==> Entry(gs[k].block))
    && (forall k :: 0 < k < |gs| && (gs[k - 1].Directive? || gs[k].Directive?) ==> !GoesOn(gs[k - 1], gs[k]))
  }

  lemma {:induction false} GroupsWhole(lines: seq<Line>)
    ensures WholeGroups(Groups(lines))
    ensures lines != [] ==> Groups(lines) != [] && GroupLines(Groups(lines)[0]) != [] &&
                            GroupLines(Groups(lines)[0])[0] == lines[0]
    decreases |lines|
  {
    if lines != [] {
      var k := if lines[0].Acc? then BlockLength(lines) else 1;
      var block, rest := lines[..k], lines[k..];
      if lines[0].Acc? {
        WholeBlock(lines);
      }
      FirstGroups(lines, k, 0);
      GroupsWhole(rest);
      assert rest != [] ==> rest[0] == lines[k];
      assert block[|block| - 1] == lines[k - 1] && block[0] == lines[0];
      JoinWhole(block, Groups(rest));
    }
  }

  lemma JoinWhole(block: seq<Line>, ahead: seq<Group>)
    requires block != [] && WholeGroups(ahead) && if block[0].Acc? then Chained(block) else |block| == 1
    requires ahead != [] && block[|block| - 1].Acc? && block[|block| - 1].continued ==>
               GroupLines(ahead[0]) != [] && !GroupLines(ahead[0])[0].Acc?
    ensures WholeGroups(HeadGroups(block) + ahead)
  {
    var first := HeadGroups(block);
    var gs := first + ahead;
    forall k | 0 < k < |gs| && (gs[k - 1].Directive? || gs[k].Directive?) ensures !GoesOn(gs[k - 1], gs[k]) {
      if k > |first| {
        assert gs[k - 1] == ahead[k - 1 - |first|] && gs[k] == ahead[k - |first|];
      } else {
        assert k == |first| && gs[k] == ahead[0];
        assert GroupLines(gs[k - 1])[|GroupLines(gs[k - 1])| - 1] == block[|block| - 1];
      }
    }
  }

  /** Whatever lines of an encoded file survive, decoding expands each surviving marker to its whole directive. */
  lemma SurvivorsDecode(files: seq<seq<Line>>, k: nat, flags: seq<bool>)
    requires k < |files| && |flags| == |Groups(files[k])|
    requires LinesNoOwnMarkers(files[k], Entries(AllGroups(files), 0))
    ensures DecodeLines(Select(flags, Encoded(Groups(files[k]), Start(files, k))), Entries(AllGroups(files), 0)) ==
            Expand(Select(flags, Groups(files[k])))
    ensures WholeGroups(Groups(files[k]))
  {
    TableHolds(files, k);
    GroupsShape(files[k]);
    GroupsWhole(files[k]);
    DecodeSurvivors(Groups(files[k]), Start(files, k), Entries(AllGroups(files), 0), flags);
  }

  /** The encoded files, one after the other. */
  ghost function EncodedFiles(files: seq<seq<Line>>, c: nat): seq<Line>
    decreases |files|
  {
    if files == [] then []
    else Encoded(Groups(files[0]), c) + EncodedFiles(files[1..], c + Directives(Groups(files[0])))
  }

  lemma {:induction false} EncodedFilesAre(files: seq<seq<Line>>, c: nat)
    ensures EncodedFiles(files, c) == Encoded(AllGroups(files), c)
    decreases |files|
  {
    if files != [] {
      EncodedFilesAre(files[1..], c + Directives(Groups(files[0])));
      EncodedConcat(Groups(files[0]), AllGroups(files[1..]), c);
    }
  }

  /** Across all the files the markers are numbered 0, 1, 2, ... without repetition. */
  lemma NumbersAcrossFiles(files: seq<seq<Line>>)
    requires forall f, l :: f in files && l in f ==> !l.Marker?
    ensures MarkerNumbers(EncodedFiles(files, 0)) == Range(0, Directives(AllGroups(files)))
  {
    EncodedFilesAre(files, 0);
    NoMarkersIn(files);
    NumberedOnce(AllGroups(files), 0);
  }

  lemma {:induction false} NoMarkersIn(files: seq<seq<Line>>)
    requires forall f, l :: f in files && l in f ==> !l.Marker?
    ensures forall g :: g in AllGroups(files) && g.Keep? ==> !g.line.Marker?
    decreases |files|
  {
    if files != [] {
      GroupsShape(files[0]);
      assert files[0] in files;
      NoMarkersIn(files[1..]);
    }
  }
}
