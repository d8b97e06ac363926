/** Face copies of a boundary exchange as one offset copy: the offsets derived from the swept subscripts, the kernel
    laid out with them, and the cells it copies. */
module OffsetCopy {

  // ---------------------------------------------------------------- sums of terms

  /** A term of a sum: no text, an integer, or a symbol with a factor. */
  datatype Term = Blank | Number(n: int) | Times(k: nat, name: string)

  type Env = map<string, int>

  function Get(env: Env, v: string): int {
    if v in env then env[v] else 0
  }

  function TermValue(env: Env, t: Term): int {
    match t
    case Blank => 0
    case Number(n) => n
    case Times(k, name) => k * Get(env, name)
  }

  function Total(env: Env, ts: seq<Term>): int {
    if ts == [] then 0 else Total(env, ts[..|ts| - 1]) + TermValue(env, ts[|ts| - 1])
  }

  /** A sum as it is printed: the symbols, then at most one number, which is 0 only when it stands alone. */
  predicate Printed(ts: seq<Term>) {
    && ts != []
    && (forall i :: 0 <= i < |ts| ==> ts[i] != Blank)
    && (forall i :: 0 <= i < |ts| - 1 ==> ts[i].Times?)
    && (Number(0) in ts ==> ts == [Number(0)])
  }

  lemma TotalNext(env: Env, ts: seq<Term>, t: Term)
    ensures Total(env, ts + [t]) == Total(env, ts) + TermValue(env, t)
  {
    assert (ts + [t])[..|ts|] == ts;
  }

  /** `_sum`: the numbers are folded, the symbols keep their order, the value stays. */
  method Sum(terms: seq<Term>) returns (out: seq<Term>)
    ensures out == Folded(terms)
  {
    var total, syms := 0, [];
    for i := 0 to |terms|
      invariant total == NumbersOf(terms[..i]) && syms == SymbolsOf(terms[..i])
    {
      assert terms[..i + 1][..i] == terms[..i];
      match terms[i]
      case Blank =>
      case Number(n) => total := total + n;
      case Times(_, _) => syms := syms + [terms[i]];
    }
    assert terms[..|terms|] == terms;
    if total != 0 {
      syms := syms + [Number(total)];
    }
    out := if syms == [] then [Number(0)] else syms;
  }

  function NumbersOf(ts: seq<Term>): int {
    if ts == [] then 0
    else NumbersOf(ts[..|ts| - 1]) + if ts[|ts| - 1].Number? then ts[|ts| - 1].n else 0
  }

  function SymbolsOf(ts: seq<Term>): seq<Term> {
    if ts == [] then []
    else SymbolsOf(ts[..|ts| - 1]) + if ts[|ts| - 1].Times? then [ts[|ts| - 1]] else []
  }

  function Folded(ts: seq<Term>): seq<Term> {
    if NumbersOf(ts) != 0 then SymbolsOf(ts) + [Number(NumbersOf(ts))]
    else if SymbolsOf(ts) == [] then [Number(0)]
    else SymbolsOf(ts)
  }

  lemma {:induction false} SymbolsOnly(env: Env, ts: seq<Term>)
    ensures forall t :: t in SymbolsOf(ts) ==> t.Times?
    ensures Total(env, SymbolsOf(ts)) + NumbersOf(ts) == Total(env, ts)
    decreases |ts|
  {
    if ts != [] {
      var last := ts[|ts| - 1];
      SymbolsOnly(env, ts[..|ts| - 1]);
      TotalNext(env, SymbolsOf(ts[..|ts| - 1]), last);
      assert last.Times? || SymbolsOf(ts) == SymbolsOf(ts[..|ts| - 1]);
    }
  }

  /** Folding keeps the value, and prints a sum with no empty term and no second number. */
  lemma SumKeepsValue(env: Env, ts: seq<Term>)
    ensures Total(env, Folded(ts)) == Total(env, ts) && Printed(Folded(ts))
  {
    var syms := SymbolsOf(ts);
    SymbolsOnly(env, ts);
    TotalNext(env, [], Number(0));
    assert [] + [Number(0)] == [Number(0)];
    TotalNext(env, syms, Number(NumbersOf(ts)));
    forall i | 0 <= i < |syms| ensures syms[i].Times? {
      assert syms[i] in syms;
    }
  }

  // ---------------------------------------------------------------- `derive_offsets`

  /** A swept subscript: `slope * j + const + copies * ext`. */
  datatype Swept = Swept(slope: int, fixed: int, copies: nat) {
    function At(env: Env, ext: string, j: int): int { slope * j + fixed + copies * Get(env, ext) }
  }

  datatype Refusal = SlopesDiffer | NotUnitSlope | NotTwoAxes | NoSuchSubscript | NoRows

  datatype Result<T> = Ok(value: T) | Refused(why: Refusal)

  /** The terms of one offset: for a falling slope the ghost width of the frame cancels. */
  function FrameTerms(s: Swept, ext: string, ghostWidth: Term): seq<Term> {
    [if s.copies == 0 then Blank else Times(s.copies, ext), Number(s.fixed)] +
    if s.slope == -1 then [] else [ghostWidth, Number(1)]
  }

  method DeriveOffsets(dst: Swept, src: Swept, ext: string, ghostWidth: Term)
    returns (r: Result<(seq<Term>, seq<Term>)>)
    ensures r == Offsets(dst, src, ext, ghostWidth)
    ensures r.Ok? <==> dst.slope == src.slope && (dst.slope == 1 || dst.slope == -1)
  {
    if dst.slope != src.slope {
      return Refused(SlopesDiffer);
    }
    if dst.slope != 1 && dst.slope != -1 {
      return Refused(NotUnitSlope);
    }
    var doff := Sum(FrameTerms(dst, ext, ghostWidth));
    var soff := Sum(FrameTerms(src, ext, ghostWidth));
    return Ok((doff, soff));
  }

  function Offsets(dst: Swept, src: Swept, ext: string, ghostWidth: Term): Result<(seq<Term>, seq<Term>)> {
    if dst.slope != src.slope then Refused(SlopesDiffer)
    else if dst.slope != 1 && dst.slope != -1 then Refused(NotUnitSlope)
    else Ok((Folded(FrameTerms(dst, ext, ghostWidth)), Folded(FrameTerms(src, ext, ghostWidth))))
  }

  /** The zero-based loop makes, at its iterate `g`, the pair of subscripts that the swept loop makes at `j`. */
  ghost predicate SamePair(dst: Swept, src: Swept, ext: string, env: Env, doff: int, soff: int, j: int, g: int) {
    dst.At(env, ext, j) == doff + g && src.At(env, ext, j) == soff + g
  }

  ghost predicate SomeOffset(dst: Swept, src: Swept, ext: string, env: Env, width: int, doff: int, soff: int, j: int) {
    exists g :: 0 <= g < width && SamePair(dst, src, ext, env, doff, soff, j, g)
  }

  ghost predicate SomeIterate(dst: Swept, src: Swept, ext: string, env: Env, width: int, doff: int, soff: int, g: int) {
    exists j :: 1 <= j <= width && SamePair(dst, src, ext, env, doff, soff, j, g)
  }

  /** Both loops make the same pairs. */
  ghost predicate OffsetForm(dst: Swept, src: Swept, ext: string, env: Env, width: int, doff: int, soff: int) {
    && (forall j :: 1 <= j <= width ==> SomeOffset(dst, src, ext, env, width, doff, soff, j))
    && (forall g :: 0 <= g < width ==> SomeIterate(dst, src, ext, env, width, doff, soff, g))
  }

  /** The refusals are right: a loop over more than one cell can be run from two offsets exactly when its slopes are
      equal and are 1 or -1. */
  lemma OffsetFormIff(dst: Swept, src: Swept, ext: string, env: Env, width: int)
    requires width > 1
    ensures (exists doff, soff :: OffsetForm(dst, src, ext, env, width, doff, soff)) <==>
            dst.slope == src.slope && (dst.slope == 1 || dst.slope == -1)
  {
    if dst.slope == src.slope && (dst.slope == 1 || dst.slope == -1) {
      UnitSlopeForm(dst, src, ext, env, width);
    }
    if doff, soff :| OffsetForm(dst, src, ext, env, width, doff, soff) {
      FormHasUnitSlope(dst, src, ext, env, width, doff, soff);
    }
  }

  lemma UnitSlopeForm(dst: Swept, src: Swept, ext: string, env: Env, width: int)
    requires width > 1 && dst.slope == src.slope && (dst.slope == 1 || dst.slope == -1)
    ensures exists doff, soff :: OffsetForm(dst, src, ext, env, width, doff, soff)
  {
    var first := if dst.slope == 1 then 1 else width;
    var doff, soff := dst.At(env, ext, first), src.At(env, ext, first);
    forall g | 0 <= g < width ensures SomeIterate(dst, src, ext, env, width, doff, soff, g) {
      assert SamePair(dst, src, ext, env, doff, soff, if dst.slope == 1 then g + 1 else width - g, g);
    }
    forall j | 1 <= j <= width ensures SomeOffset(dst, src, ext, env, width, doff, soff, j) {
      assert SamePair(dst, src, ext, env, doff, soff, j, if dst.slope == 1 then j - 1 else width - j);
    }
    assert OffsetForm(dst, src, ext, env, width, doff, soff);
  }

  lemma FormHasUnitSlope(dst: Swept, src: Swept, ext: string, env: Env, width: int, doff: int, soff: int)
    requires width > 1 && OffsetForm(dst, src, ext, env, width, doff, soff)
    ensures dst.slope == src.slope && (dst.slope == 1 || dst.slope == -1)
  {
    assert SomeOffset(dst, src, ext, env, width, doff, soff, 1);
    assert SomeOffset(dst, src, ext, env, width, doff, soff, 2);
    assert SomeOffset(dst, src, ext, env, width, doff, soff, width);
    assert dst.At(env, ext, width) - dst.At(env, ext, 1) == dst.slope * (width - 1);
    SteepLeaves(dst.slope, width - 1);
    assert SomeIterate(dst, src, ext, env, width, doff, soff, 0);
    assert SomeIterate(dst, src, ext, env, width, doff, soff, 1);
  }

  lemma SteepLeaves(slope: int, n: int)
    requires n > 0
    ensures slope > 1 ==> slope * n > n
    ensures slope < -1 ==> slope * n < -n
  {
    assert slope * n == n + (slope - 1) * n;
    assert slope * n == -n + (slope + 1) * n;
  }

  /** The iterate of the source loop at which the kernel's `g` stands: a falling slope runs it backwards. */
  function Iterate(slope: int, width: int, g: int): int {
    if slope == -1 then width - g else g + 1
  }

  /** An offset is the subscript of the kernel's first cell, in the frame that starts at the ghost corner. */
  lemma FrameValue(s: Swept, ext: string, ghostWidth: Term, env: Env, g: int)
    requires s.slope == 1 || s.slope == -1
    ensures var width := TermValue(env, ghostWidth);
            Total(env, Folded(FrameTerms(s, ext, ghostWidth))) + g == s.At(env, ext, Iterate(s.slope, width, g)) + width
  {
    var ts := FrameTerms(s, ext, ghostWidth);
    SumKeepsValue(env, ts);
    var first := if s.copies == 0 then Blank else Times(s.copies, ext);
    assert TermValue(env, first) == s.copies * Get(env, ext);
    TwoTerms(env, first, Number(s.fixed));
    if s.slope == 1 {
      assert ts == [first, Number(s.fixed)] + [ghostWidth, Number(1)];
      assert ts == [first, Number(s.fixed)] + [ghostWidth] + [Number(1)];
      TotalNext(env, [first, Number(s.fixed)], ghostWidth);
      TotalNext(env, [first, Number(s.fixed)] + [ghostWidth], Number(1));
    } else {
      assert ts == [first, Number(s.fixed)];
    }
  }

  lemma TwoTerms(env: Env, a: Term, b: Term)
    ensures Total(env, [a, b]) == TermValue(env, a) + TermValue(env, b)
  {
    TotalNext(env, [], a);
    TotalNext(env, [a], b);
    assert [] + [a] == [a] && [a] + [b] == [a, b];
  }

  // ---------------------------------------------------------------- `render_offset_copy`

  /** A transverse axis: the names of its ends and of its iterate. */
  datatype Axis = Axis(begin: string, end: string, iter: string)

  /** A subscript `base + iter`. */
  datatype Sub = Sub(base: string, iter: string)

  /** A last value of a zero-based loop: `end - begin`, or one below the ghost width. */
  datatype Last = Span(end: string, begin: string) | Below(width: Term)

  /** The kernel: its loops, outermost first, and the subscripts shared by its rows. */
  datatype Kernel = Kernel(vars: seq<string>, lasts: seq<Last>, dst: seq<Sub>, src: seq<Sub>, rows: nat)

  /** The swept entry at its storage position, the two others around it in storage order. */
  function Place<T>(swept: nat, x: T, low: T, high: T): seq<T> {
    if swept == 1 then [x, low, high] else if swept == 2 then [low, x, high] else [low, high, x]
  }

  /** A transverse axis's subscript. */
  function Base(a: Axis): Sub {
    Sub(a.begin, a.iter)
  }

  method Subs(swept: nat, plane: string, transverse: seq<Axis>, iter: string) returns (out: seq<Sub>)
    requires 1 <= swept <= 3 && |transverse| == 2
    ensures out == Place(swept, Sub(plane, iter), Base(transverse[0]), Base(transverse[1]))
  {
    out := [];
    var ti := 0;
    for pos := 1 to 4
      invariant ti == (if pos <= swept then pos - 1 else pos - 2)
      invariant out == Place(swept, Sub(plane, iter), Base(transverse[0]), Base(transverse[1]))[..pos - 1]
    {
      if pos == swept {
        out := out + [Sub(plane, iter)];
      } else {
        out := out + [Base(transverse[ti])];
        ti := ti + 1;
      }
    }
  }

  method Render(swept: int, transverse: seq<Axis>, nrows: int, ghostWidth: Term, iter: string)
    returns (r: Result<Kernel>)
    ensures r.Ok? <==> 1 <= swept <= 3 && nrows >= 1 && |transverse| == 2
    ensures r.Ok? ==> r.value == KernelOf(swept, transverse[0], transverse[1], nrows, ghostWidth, iter)
    ensures r.Refused? ==>
      r.why == if !(1 <= swept <= 3) then NoSuchSubscript else if nrows < 1 then NoRows else NotTwoAxes
  {
    if !(1 <= swept <= 3) {
      return Refused(NoSuchSubscript);
    }
    if nrows < 1 {
      return Refused(NoRows);
    }
    if |transverse| != 2 {
      return Refused(NotTwoAxes);
    }
    var low, high := transverse[0], transverse[1];
    var dst := Subs(swept, "doff", transverse, iter);
    var src := Subs(swept, "soff", transverse, iter);
    var lasts := [Span(high.end, high.begin), Span(low.end, low.begin), Below(ghostWidth)];
    return Ok(Kernel([high.iter, low.iter, iter], lasts, dst, src, nrows));
  }

  function KernelOf(swept: nat, low: Axis, high: Axis, rows: nat, ghostWidth: Term, iter: string): Kernel {
    Kernel([high.iter, low.iter, iter], [Span(high.end, high.begin), Span(low.end, low.begin), Below(ghostWidth)],
           Place(swept, Sub("doff", iter), Base(low), Base(high)),
           Place(swept, Sub("soff", iter), Base(low), Base(high)), rows)
  }

  // ---------------------------------------------------------------- what a kernel copies

  /** An element of one row's array, by its subscripts in the frame of the ghost corner. */
  datatype Cell = Cell(row: nat, at: seq<int>)

  datatype Copy = Copy(dst: Cell, src: Cell)

  function LastValue(env: Env, l: Last): int {
    match l
    case Span(end, begin) => Get(env, end) - Get(env, begin)
    case Below(width) => TermValue(env, width) - 1
  }

  function Subscripts(env: Env, subs: seq<Sub>): seq<int> {
    seq(|subs|, i requires 0 <= i < |subs| => Get(env, subs[i].base) + Get(env, subs[i].iter))
  }

  /** One copy for each row. */
  function RowCopies(rows: nat, dst: seq<int>, src: seq<int>): seq<Copy> {
    if rows == 0 then [] else RowCopies(rows - 1, dst, src) + [Copy(Cell(rows, dst), Cell(rows, src))]
  }

  /** The copies the kernel makes, from loop `i` on. */
  function RunFrom(k: Kernel, i: nat, env: Env): seq<Copy>
    requires |k.lasts| == |k.vars| && i <= |k.vars|
    decreases |k.vars| - i, 1, 0
  {
    if i == |k.vars| then RowCopies(k.rows, Subscripts(env, k.dst), Subscripts(env, k.src))
    else RunUpTo(k, i, env, LastValue(env, k.lasts[i]))
  }

  function RunUpTo(k: Kernel, i: nat, env: Env, last: int): seq<Copy>
    requires |k.lasts| == |k.vars| && i < |k.vars|
    decreases |k.vars| - i, 0, last + 1
  {
    if last < 0 then [] else RunUpTo(k, i, env, last - 1) + RunFrom(k, i + 1, env[k.vars[i] := last])
  }

  // ---------------------------------------------------------------- what the face loop copies

  /** A face copy of the source program: its two swept subscripts, its transverse ranges, its rows. */
  datatype Face = Face(dst: Swept, src: Swept, ext: string, swept: nat, lowFrom: int, lowTo: int, highFrom: int,
                       highTo: int, rows: nat)

  /** The copies of one iteration, in the frame whose corner lies `width` below the origin. */
  function FaceAt(f: Face, env: Env, width: int, low: int, high: int, j: int): seq<Copy> {
    RowCopies(f.rows, Place(f.swept, f.dst.At(env, f.ext, j) + width, low + width, high + width),
              Place(f.swept, f.src.At(env, f.ext, j) + width, low + width, high + width))
  }

  /** The innermost loop, upwards or downwards. */
  function FaceSweep(f: Face, env: Env, width: int, low: int, high: int, first: int, last: int, up: bool): seq<Copy>
    decreases last - first + 1
  {
    if first > last then []
    else if up then FaceSweep(f, env, width, low, high, first, last - 1, up) + FaceAt(f, env, width, low, high, last)
    else FaceSweep(f, env, width, low, high, first + 1, last, up) + FaceAt(f, env, width, low, high, first)
  }

  function FaceLow(f: Face, env: Env, width: int, high: int, last: int, up: bool): seq<Copy>
    decreases last - f.lowFrom + 1
  {
    if last < f.lowFrom then []
    else FaceLow(f, env, width, high, last - 1, up) + FaceSweep(f, env, width, last, high, 1, width, up)
  }

  /** The whole face, its swept loop running upwards as in the source, or downwards. */
  function FaceHigh(f: Face, env: Env, width: int, last: int, up: bool): seq<Copy>
    decreases last - f.highFrom + 1
  {
    if last < f.highFrom then []
    else FaceHigh(f, env, width, last - 1, up) + FaceLow(f, env, width, last, f.lowTo, up)
  }

  function FaceCopies(f: Face, env: Env, width: int, up: bool): seq<Copy> {
    FaceHigh(f, env, width, f.highTo, up)
  }

  // ---------------------------------------------------------------- the call: kernel and face side by side

  /** A kernel called for a face: `host` holds the source's symbols, `env` the kernel's dummies. */
  datatype Call = Call(face: Face, ghostWidth: Term, low: Axis, high: Axis, iter: string, host: Env, env: Env) {
    function Code(): Kernel { KernelOf(face.swept, low, high, face.rows, ghostWidth, iter) }
    function Width(): int { TermValue(env, ghostWidth) }
    function GhostNames(): set<string> { if ghostWidth.Times? then {ghostWidth.name} else {} }

    /** The iterates are three names of their own. */
    predicate NamesApart() {
      && low.iter != high.iter && iter != low.iter && iter != high.iter
      && {low.iter, high.iter, iter} !! {"doff", "soff", low.begin, low.end, high.begin, high.end} + GhostNames()
    }

    /** The caller passes the derived offsets and the transverse ends shifted into the frame. */
    predicate Agrees() {
      && TermValue(host, ghostWidth) == Width() && 1 <= face.swept <= 3
      && Get(env, low.begin) == face.lowFrom + Width() && Get(env, low.end) == face.lowTo + Width()
      && Get(env, high.begin) == face.highFrom + Width() && Get(env, high.end) == face.highTo + Width()
      && var offs := Offsets(face.dst, face.src, face.ext, ghostWidth);
         offs.Ok? && Get(env, "doff") == Total(host, offs.value.0) && Get(env, "soff") == Total(host, offs.value.1)
    }
  }

  /** The environment inside the three loops. */
  function Inside(c: Call, h: int, l: int, g: int): Env {
    c.env[c.high.iter := h][c.low.iter := l][c.iter := g]
  }

  lemma SweptSubscript(c: Call, g: int)
    requires c.Agrees()
    ensures var j := Iterate(c.face.dst.slope, c.Width(), g);
            && Get(c.env, "doff") + g == c.face.dst.At(c.host, c.face.ext, j) + c.Width()
            && Get(c.env, "soff") + g == c.face.src.At(c.host, c.face.ext, j) + c.Width()
  {
    FrameValue(c.face.dst, c.face.ext, c.ghostWidth, c.host, g);
    FrameValue(c.face.src, c.face.ext, c.ghostWidth, c.host, g);
  }

  lemma BodyIsFaceAt(c: Call, h: int, l: int, g: int)
    requires c.NamesApart() && c.Agrees()
    ensures RunFrom(c.Code(), 3, Inside(c, h, l, g)) ==
            FaceAt(c.face, c.host, c.Width(), c.face.lowFrom + l, c.face.highFrom + h,
                   Iterate(c.face.dst.slope, c.Width(), g))
  {
    var e, low, high := Inside(c, h, l, g), Sub(c.low.begin, c.low.iter), Sub(c.high.begin, c.high.iter);
    SweptSubscript(c, g);
    PlacedSubscripts(e, c.face.swept, Sub("doff", c.iter), low, high);
    PlacedSubscripts(e, c.face.swept, Sub("soff", c.iter), low, high);
  }

  lemma PlacedSubscripts(env: Env, swept: nat, x: Sub, low: Sub, high: Sub)
    ensures Subscripts(env, Place(swept, x, low, high)) ==
            Place(swept, Get(env, x.base) + Get(env, x.iter), Get(env, low.base) + Get(env, low.iter),
                  Get(env, high.base) + Get(env, high.iter))
  {}

  lemma {:induction false} SweepIsFaceSweep(c: Call, h: int, l: int, last: int)
    requires c.NamesApart() && c.Agrees() && -1 <= last < c.Width()
    ensures var up := c.face.dst.slope == 1;
            RunUpTo(c.Code(), 2, c.env[c.high.iter := h][c.low.iter := l], last) ==
            FaceSweep(c.face, c.host, c.Width(), c.face.lowFrom + l, c.face.highFrom + h,
                      if up then 1 else c.Width() - last, if up then last + 1 else c.Width(), up)
    decreases last + 1
  {
    if last >= 0 {
      SweepIsFaceSweep(c, h, l, last - 1);
      BodyIsFaceAt(c, h, l, last);
    }
  }

  /** The loop over the ghost width. */
  lemma LowIteration(c: Call, h: int, l: int)
    requires c.NamesApart() && c.Agrees()
    ensures RunFrom(c.Code(), 2, c.env[c.high.iter := h][c.low.iter := l]) ==
            FaceSweep(c.face, c.host, c.Width(), c.face.lowFrom + l, c.face.highFrom + h, 1,
                      c.Width(), c.face.dst.slope == 1)
  {
    var e := c.env[c.high.iter := h][c.low.iter := l];
    assert TermValue(e, c.ghostWidth) == c.Width();
    if c.Width() >= 0 {
      SweepIsFaceSweep(c, h, l, c.Width() - 1);
    }
  }

  lemma {:induction false} LowIsFaceLow(c: Call, h: int, last: int)
    requires c.NamesApart() && c.Agrees()
    ensures RunUpTo(c.Code(), 1, c.env[c.high.iter := h], last) ==
            FaceLow(c.face, c.host, c.Width(), c.face.highFrom + h, c.face.lowFrom + last, c.face.dst.slope == 1)
    decreases last + 1
  {
    if last >= 0 {
      LowIsFaceLow(c, h, last - 1);
      LowIteration(c, h, last);
    }
  }

  lemma {:induction false} HighIsFaceHigh(c: Call, last: int)
    requires c.NamesApart() && c.Agrees()
    ensures RunUpTo(c.Code(), 0, c.env, last) ==
            FaceHigh(c.face, c.host, c.Width(), c.face.highFrom + last, c.face.dst.slope == 1)
    decreases last + 1
  {
    if last >= 0 {
      HighIsFaceHigh(c, last - 1);
      OneHigh(c, last);
    }
  }

  /** One iteration of the outermost loop. */
  lemma OneHigh(c: Call, h: int)
    requires c.NamesApart() && c.Agrees()
    ensures RunFrom(c.Code(), 1, c.env[c.high.iter := h]) ==
            FaceLow(c.face, c.host, c.Width(), c.face.highFrom + h, c.face.lowTo, c.face.dst.slope == 1)
  {
    assert LastValue(c.env[c.high.iter := h], c.Code().lasts[1]) == c.face.lowTo - c.face.lowFrom;
    LowIsFaceLow(c, h, c.face.lowTo - c.face.lowFrom);
  }

  /** The kernel makes exactly the face's copies, row by row and cell by cell; for slope -1 its innermost loop makes
      them from the other end. */
  lemma KernelIsFace(c: Call)
    requires c.NamesApart() && c.Agrees()
    ensures RunFrom(c.Code(), 0, c.env) == FaceCopies(c.face, c.host, c.Width(), c.face.dst.slope == 1)
  {
    HighIsFaceHigh(c, c.face.highTo - c.face.highFrom);
  }

  // ---------------------------------------------------------------- the final array

  /** What a cell holds after the copies, made in order. */
  ghost function After(copies: seq<Copy>, mem: Cell -> int, c: Cell): int
    decreases |copies|
  {
    if copies == [] then mem(c)
    else
      var n := |copies| - 1;
      After(copies[..n], mem, if copies[n].dst == c then copies[n].src else c)
  }

  /** No copy reads what another writes, and no two copies to a cell disagree. */
  ghost predicate Independent(copies: seq<Copy>) {
    forall p, q :: p in copies && q in copies ==> p.dst != q.src && (p.dst == q.dst ==> p.src == q.src)
  }

  lemma {:induction false} IndependentResult(copies: seq<Copy>, mem: Cell -> int, c: Cell)
    requires Independent(copies)
    ensures forall p :: p in copies && p.dst == c ==> After(copies, mem, c) == mem(p.src)
    ensures (forall p :: p in copies ==> p.dst != c) ==> After(copies, mem, c) == mem(c)
    decreases |copies|
  {
    if copies != [] {
      var n := |copies| - 1;
      var last := copies[n];
      assert forall p :: p in copies <==> p in copies[..n] || p == last by {
        assert copies == copies[..n] + [last];
      }
      if last.dst == c {
        IndependentResult(copies[..n], mem, last.src);
      } else {
        IndependentResult(copies[..n], mem, c);
      }
    }
  }

  /** Independent copies may be made in any order. */
  lemma OrderIrrelevant(copies: seq<Copy>, copies': seq<Copy>, mem: Cell -> int, c: Cell)
    requires Independent(copies) && forall p :: p in copies <==> p in copies'
    ensures After(copies, mem, c) == After(copies', mem, c)
  {
    IndependentResult(copies, mem, c);
    IndependentResult(copies', mem, c);
  }

  // ---------------------------------------------------------------- which copies a face makes

  lemma {:induction false} RowMember(rows: nat, dst: seq<int>, src: seq<int>, p: Copy)
    ensures p in RowCopies(rows, dst, src) <==>
            1 <= p.dst.row <= rows && p == Copy(Cell(p.dst.row, dst), Cell(p.dst.row, src))
    decreases rows
  {
    if rows > 0 {
      RowMember(rows - 1, dst, src, p);
    }
  }

  lemma {:induction false} SweepMember(f: Face, env: Env, width: int, low: int, high: int, first: int, last: int,
                                       up: bool, p: Copy)
    ensures p in FaceSweep(f, env, width, low, high, first, last, up) <==>
            exists j :: first <= j <= last && p in FaceAt(f, env, width, low, high, j)
    decreases last - first + 1
  {
    if first <= last {
      SweepMember(f, env, width, low, high, if up then first else first + 1, if up then last - 1 else last, up, p);
    }
  }

  ghost predicate InSweep(f: Face, env: Env, width: int, low: int, high: int, up: bool, p: Copy) {
    p in FaceSweep(f, env, width, low, high, 1, width, up)
  }

  ghost predicate InLow(f: Face, env: Env, width: int, high: int, up: bool, p: Copy) {
    p in FaceLow(f, env, width, high, f.lowTo, up)
  }

  lemma {:induction false} LowMember(f: Face, env: Env, width: int, high: int, last: int, up: bool, p: Copy)
    ensures p in FaceLow(f, env, width, high, last, up) <==>
            exists low :: f.lowFrom <= low <= last && InSweep(f, env, width, low, high, up, p)
    decreases last - f.lowFrom + 1
  {
    if f.lowFrom <= last {
      LowMember(f, env, width, high, last - 1, up, p);
      assert p in FaceLow(f, env, width, high, last, up) <==>
             p in FaceLow(f, env, width, high, last - 1, up) || InSweep(f, env, width, last, high, up, p);
    }
  }

  lemma {:induction false} HighMember(f: Face, env: Env, width: int, last: int, up: bool, p: Copy)
    ensures p in FaceHigh(f, env, width, last, up) <==>
            exists high :: f.highFrom <= high <= last && InLow(f, env, width, high, up, p)
    decreases last - f.highFrom + 1
  {
    if f.highFrom <= last {
      HighMember(f, env, width, last - 1, up, p);
      assert p in FaceHigh(f, env, width, last, up) <==>
             p in FaceHigh(f, env, width, last - 1, up) || InLow(f, env, width, last, up, p);
    }
  }

  predicate InLoops(f: Face, width: int, low: int, high: int, j: int) {
    f.highFrom <= high <= f.highTo && f.lowFrom <= low <= f.lowTo && 1 <= j <= width
  }

  /** One of the face's copies. */
  ghost predicate Made(f: Face, env: Env, width: int, p: Copy) {
    exists high, low, j :: InLoops(f, width, low, high, j) && p in FaceAt(f, env, width, low, high, j)
  }

  /** Either direction makes the same copies. */
  lemma FaceMember(f: Face, env: Env, width: int, up: bool, p: Copy)
    ensures p in FaceCopies(f, env, width, up) <==> Made(f, env, width, p)
  {
    HighMember(f, env, width, f.highTo, up, p);
    if p in FaceCopies(f, env, width, up) {
      var high :| f.highFrom <= high <= f.highTo && InLow(f, env, width, high, up, p);
      LowMember(f, env, width, high, f.lowTo, up, p);
      var low :| f.lowFrom <= low <= f.lowTo && InSweep(f, env, width, low, high, up, p);
      SweepMember(f, env, width, low, high, 1, width, up, p);
    }
    if Made(f, env, width, p) {
      var high, low, j :| InLoops(f, width, low, high, j) && p in FaceAt(f, env, width, low, high, j);
      SweepMember(f, env, width, low, high, 1, width, up, p);
      assert InSweep(f, env, width, low, high, up, p);
      LowMember(f, env, width, high, f.lowTo, up, p);
      assert InLow(f, env, width, high, up, p);
    }
  }

  /** The two swept planes share no cell. */
  predicate PlanesApart(f: Face, env: Env, width: int) {
    Distance(f, env) >= width || -Distance(f, env) >= width
  }

  /** Two of the face's copies, by their iterations. */
  lemma TwoApart(f: Face, env: Env, width: int, pj: int, qj: int)
    requires f.dst.slope == f.src.slope && (f.dst.slope == 1 || f.dst.slope == -1) && PlanesApart(f, env, width)
    requires 1 <= pj <= width && 1 <= qj <= width
    ensures f.dst.At(env, f.ext, pj) != f.src.At(env, f.ext, qj)
    ensures f.dst.At(env, f.ext, pj) == f.dst.At(env, f.ext, qj) ==> pj == qj
  {}

  /** A copy of one iteration, spelt out. */
  lemma FaceAtMember(f: Face, env: Env, width: int, low: int, high: int, j: int, p: Copy)
    requires p in FaceAt(f, env, width, low, high, j)
    ensures p.dst.at == Place(f.swept, f.dst.At(env, f.ext, j) + width, low + width, high + width)
    ensures p.src.at == Place(f.swept, f.src.At(env, f.ext, j) + width, low + width, high + width)
    ensures p.dst.row == p.src.row
  {
    RowMember(f.rows, Place(f.swept, f.dst.At(env, f.ext, j) + width, low + width, high + width),
              Place(f.swept, f.src.At(env, f.ext, j) + width, low + width, high + width), p);
  }

  lemma MadeApart(f: Face, env: Env, width: int, p: Copy, q: Copy)
    requires f.dst.slope == f.src.slope && (f.dst.slope == 1 || f.dst.slope == -1) && PlanesApart(f, env, width)
    requires Made(f, env, width, p) && Made(f, env, width, q)
    ensures p.dst != q.src && (p.dst == q.dst ==> p.src == q.src)
  {
    var ph, pl, pj :| 1 <= pj <= width && p in FaceAt(f, env, width, pl, ph, pj);
    var qh, ql, qj :| 1 <= qj <= width && q in FaceAt(f, env, width, ql, qh, qj);
    FaceAtMember(f, env, width, pl, ph, pj, p);
    FaceAtMember(f, env, width, ql, qh, qj, q);
    TwoApart(f, env, width, pj, qj);
  }

  /** Whatever the array holds, both sequences of copies leave every cell the same. */
  ghost predicate SameEnd(copies: seq<Copy>, copies': seq<Copy>) {
    forall mem: Cell -> int, c :: After(copies, mem, c) == After(copies', mem, c)
  }

  /** How far the plane written lies above the plane read. */
  function Distance(f: Face, env: Env): int {
    f.dst.At(env, f.ext, 0) - f.src.At(env, f.ext, 0)
  }

  /** No transverse cell, or no row. */
  predicate NoCells(f: Face) {
    f.rows == 0 || f.lowFrom > f.lowTo || f.highFrom > f.highTo
  }

  lemma ApartSame(f: Face, env: Env, width: int)
    requires f.dst.slope == f.src.slope && (f.dst.slope == 1 || f.dst.slope == -1) && PlanesApart(f, env, width)
    ensures SameEnd(FaceCopies(f, env, width, false), FaceCopies(f, env, width, true))
  {
    var up, down := FaceCopies(f, env, width, true), FaceCopies(f, env, width, false);
    forall p ensures (p in up <==> Made(f, env, width, p)) && (p in down <==> Made(f, env, width, p)) {
      FaceMember(f, env, width, true, p);
      FaceMember(f, env, width, false, p);
    }
    forall p, q | p in down && q in down ensures p.dst != q.src && (p.dst == q.dst ==> p.src == q.src) {
      MadeApart(f, env, width, p, q);
    }
    forall mem: Cell -> int, c ensures After(down, mem, c) == After(up, mem, c) {
      OrderIrrelevant(down, up, mem, c);
    }
  }

  /** Copies of cells onto themselves, or none at all, change nothing. */
  lemma {:induction false} IdleCopies(copies: seq<Copy>, mem: Cell -> int, c: Cell)
    requires forall p :: p in copies ==> p.dst == p.src
    ensures After(copies, mem, c) == mem(c)
    decreases |copies|
  {
    if copies != [] {
      var n := |copies| - 1;
      assert copies[n] in copies;
      IdleCopies(copies[..n], mem, c);
    }
  }

  lemma IdleSame(f: Face, env: Env, width: int)
    requires f.dst.slope == f.src.slope && (Distance(f, env) == 0 || NoCells(f))
    ensures SameEnd(FaceCopies(f, env, width, false), FaceCopies(f, env, width, true))
  {
    var up, down := FaceCopies(f, env, width, true), FaceCopies(f, env, width, false);
    forall p | p in up || p in down ensures p.dst == p.src {
      FaceMember(f, env, width, true, p);
      FaceMember(f, env, width, false, p);
      var high, low, j :| InLoops(f, width, low, high, j) && p in FaceAt(f, env, width, low, high, j);
      assert f.rows > 0;
      FaceAtMember(f, env, width, low, high, j, p);
    }
    forall mem: Cell -> int, c ensures After(down, mem, c) == After(up, mem, c) {
      IdleCopies(down, mem, c);
      IdleCopies(up, mem, c);
    }
  }

  // ---------------------------------------------------------------- overlapping planes

  /** An array that holds at each cell its position on the swept axis. */
  ghost function Ruler(swept: nat): Cell -> int {
    (c: Cell) => if |c.at| == 3 then c.at[if swept == 1 then 0 else if swept == 2 then 1 else 2] else 0
  }

  /** Nothing is written to the cell. */
  ghost predicate Leaves(copies: seq<Copy>, c: Cell) {
    forall p :: p in copies ==> p.dst != c
  }

  lemma {:induction false} LeavesAfter(a: seq<Copy>, b: seq<Copy>, mem: Cell -> int, c: Cell)
    requires Leaves(b, c)
    ensures After(a + b, mem, c) == After(a, mem, c)
    decreases |b|
  {
    if b == [] {
      assert a + b == a;
    } else {
      var n := |b| - 1;
      assert b[n] in b && (a + b)[..|a + b| - 1] == a + b[..n];
      LeavesAfter(a, b[..n], mem, c);
    }
  }

  /** Every copy brings a value from one side of its cell. */
  ghost predicate Drifts(copies: seq<Copy>, swept: nat, below: bool) {
    forall p :: p in copies ==>
      var from, to' := Ruler(swept)(p.src), Ruler(swept)(p.dst); if below then from < to' else from > to'
  }

  lemma {:induction false} DriftedValue(copies: seq<Copy>, swept: nat, below: bool, c: Cell)
    requires Drifts(copies, swept, below)
    ensures var v := After(copies, Ruler(swept), c); if below then v <= Ruler(swept)(c) else v >= Ruler(swept)(c)
    ensures !Leaves(copies, c) ==> After(copies, Ruler(swept), c) != Ruler(swept)(c)
    decreases |copies|
  {
    if copies != [] {
      var n := |copies| - 1;
      var last := copies[n];
      assert copies == copies[..n] + [last];
      DriftedValue(copies[..n], swept, below, if last.dst == c then last.src else c);
    }
  }

  /** One sequence writes the cell that the copy `p` reads before it makes the copy, the other does not: they end
      differently at the cell `p` writes. */
  lemma EndsDiffer(p: Copy, dirty: seq<Copy>, afterDirty: seq<Copy>, clean: seq<Copy>, afterClean: seq<Copy>,
                   swept: nat, below: bool)
    requires Leaves(afterDirty, p.dst) && Leaves(afterClean, p.dst) && Leaves(clean, p.src)
    requires Drifts(dirty, swept, below) && !Leaves(dirty, p.src)
    ensures After(dirty + [p] + afterDirty, Ruler(swept), p.dst) != After(clean + [p] + afterClean, Ruler(swept), p.dst)
  {
    LeavesAfter(dirty + [p], afterDirty, Ruler(swept), p.dst);
    LeavesAfter(clean + [p], afterClean, Ruler(swept), p.dst);
    assert (dirty + [p])[..|dirty|] == dirty && (clean + [p])[..|clean|] == clean;
    DriftedValue(dirty, swept, below, p.src);
    assert [] + clean == clean;
    LeavesAfter([], clean, Ruler(swept), p.src);
  }

  /** A sweep, at iteration `j`. */
  lemma {:induction false} UpSplits(f: Face, env: Env, width: int, low: int, high: int, first: int, last: int, j: int)
    requires first <= j <= last
    ensures FaceSweep(f, env, width, low, high, first, last, true) ==
            FaceSweep(f, env, width, low, high, first, j - 1, true) + FaceAt(f, env, width, low, high, j) +
            FaceSweep(f, env, width, low, high, j + 1, last, true)
    decreases last - first
  {
    var a, b := FaceSweep(f, env, width, low, high, first, j - 1, true), FaceAt(f, env, width, low, high, j);
    if j < last {
      UpSplits(f, env, width, low, high, first, last - 1, j);
      var c, d := FaceSweep(f, env, width, low, high, j + 1, last - 1, true), FaceAt(f, env, width, low, high, last);
      assert (a + b + c) + d == a + b + (c + d);
    } else {
      assert a + b + [] == a + b;
    }
  }

  lemma {:induction false} DownSplits(f: Face, env: Env, width: int, low: int, high: int, first: int, last: int, j: int)
    requires first <= j <= last
    ensures FaceSweep(f, env, width, low, high, first, last, false) ==
            FaceSweep(f, env, width, low, high, j + 1, last, false) + FaceAt(f, env, width, low, high, j) +
            FaceSweep(f, env, width, low, high, first, j - 1, false)
    decreases last - first
  {
    var a, b := FaceSweep(f, env, width, low, high, j + 1, last, false), FaceAt(f, env, width, low, high, j);
    if first < j {
      DownSplits(f, env, width, low, high, first + 1, last, j);
      var c, d := FaceSweep(f, env, width, low, high, first + 1, j - 1, false), FaceAt(f, env, width, low, high, first);
      assert (a + b + c) + d == a + b + (c + d);
    } else {
      assert a + b + [] == a + b;
    }
  }

  /** What the face copies before it comes to its last transverse cell. */
  ghost function Before(f: Face, env: Env, width: int, up: bool): seq<Copy> {
    FaceHigh(f, env, width, f.highTo - 1, up) + FaceLow(f, env, width, f.highTo, f.lowTo - 1, up)
  }

  lemma BeforeMember(f: Face, env: Env, width: int, up: bool, p: Copy)
    requires p in Before(f, env, width, up)
    ensures exists high, low, j :: (high < f.highTo || low < f.lowTo) && high <= f.highTo && 1 <= j <= width &&
              p in FaceAt(f, env, width, low, high, j)
  {
    var high := f.highTo;
    HighMember(f, env, width, high - 1, up, p);
    if p in FaceHigh(f, env, width, high - 1, up) {
      high :| f.highFrom <= high <= f.highTo - 1 && InLow(f, env, width, high, up, p);
    }
    LowMember(f, env, width, high, if high < f.highTo then f.lowTo else f.lowTo - 1, up, p);
    var low :| f.lowFrom <= low <= (if high < f.highTo then f.lowTo else f.lowTo - 1) &&
        InSweep(f, env, width, low, high, up, p);
    SweepMember(f, env, width, low, high, 1, width, up, p);
  }

  /** The copy of the last row in the iteration `j` at the last transverse cell. */
  ghost function Chosen(f: Face, env: Env, width: int, j: int): Copy {
    Copy(Cell(f.rows, Place(f.swept, f.dst.At(env, f.ext, j) + width, f.lowTo + width, f.highTo + width)),
         Cell(f.rows, Place(f.swept, f.src.At(env, f.ext, j) + width, f.lowTo + width, f.highTo + width)))
  }

  /** The copies before the chosen one, and those after it. */
  ghost function Ahead(f: Face, env: Env, width: int, up: bool, j: int): seq<Copy>
    requires f.rows > 0
  {
    Before(f, env, width, up) +
    FaceSweep(f, env, width, f.lowTo, f.highTo, if up then 1 else j + 1, if up then j - 1 else width, up) +
    RowCopies(f.rows - 1, Chosen(f, env, width, j).dst.at, Chosen(f, env, width, j).src.at)
  }

  ghost function Behind(f: Face, env: Env, width: int, up: bool, j: int): seq<Copy> {
    FaceSweep(f, env, width, f.lowTo, f.highTo, if up then j + 1 else 1, if up then width else j - 1, up)
  }

  lemma ChosenSplits(f: Face, env: Env, width: int, up: bool, j: int)
    requires !NoCells(f) && 1 <= j <= width
    ensures FaceCopies(f, env, width, up) ==
            Ahead(f, env, width, up, j) + [Chosen(f, env, width, j)] + Behind(f, env, width, up, j)
  {
    var sweep, chosen := FaceSweep(f, env, width, f.lowTo, f.highTo, 1, width, up), Chosen(f, env, width, j);
    var highs, lows := FaceHigh(f, env, width, f.highTo - 1, up), FaceLow(f, env, width, f.highTo, f.lowTo - 1, up);
    assert FaceCopies(f, env, width, up) == highs + (lows + sweep);
    if up {
      UpSplits(f, env, width, f.lowTo, f.highTo, 1, width, j);
    } else {
      DownSplits(f, env, width, f.lowTo, f.highTo, 1, width, j);
    }
    var sooner := FaceSweep(f, env, width, f.lowTo, f.highTo, if up then 1 else j + 1, if up then j - 1 else width, up);
    assert sweep == sooner + FaceAt(f, env, width, f.lowTo, f.highTo, j) + Behind(f, env, width, up, j);
    var rows := RowCopies(f.rows - 1, chosen.dst.at, chosen.src.at);
    Unfold(highs, lows, sooner, rows, chosen, Behind(f, env, width, up, j));
  }

  lemma Unfold(a: seq<Copy>, b: seq<Copy>, c: seq<Copy>, d: seq<Copy>, p: Copy, e: seq<Copy>)
    ensures a + (b + (c + (d + [p]) + e)) == (((a + b) + c) + d) + [p] + e
  {}

  /** A copy ahead of the chosen one: of another transverse cell, of an earlier iteration, or of another row. */
  lemma AheadMember(f: Face, env: Env, width: int, up: bool, j: int, p: Copy)
    requires f.rows > 0 && 1 <= j <= width && p in Ahead(f, env, width, up, j)
    ensures exists high, low, i :: 1 <= i <= width && p in FaceAt(f, env, width, low, high, i) &&
              (high != f.highTo || low != f.lowTo || (if up then i < j else i > j) || (i == j && p.dst.row < f.rows))
  {
    var chosen, first, last := Chosen(f, env, width, j), if up then 1 else j + 1, if up then j - 1 else width;
    if p in Before(f, env, width, up) {
      BeforeMember(f, env, width, up, p);
    } else if p in FaceSweep(f, env, width, f.lowTo, f.highTo, first, last, up) {
      SweepMember(f, env, width, f.lowTo, f.highTo, first, last, up, p);
    } else {
      RowMember(f.rows - 1, chosen.dst.at, chosen.src.at, p);
      RowMember(f.rows, chosen.dst.at, chosen.src.at, p);
      assert p in FaceAt(f, env, width, f.lowTo, f.highTo, j);
    }
  }

  lemma AheadDrifts(f: Face, env: Env, width: int, up: bool, j: int)
    requires f.rows > 0 && 1 <= j <= width && f.dst.slope == f.src.slope && Distance(f, env) != 0
    ensures Drifts(Ahead(f, env, width, up, j), f.swept, Distance(f, env) > 0)
  {
    forall p | p in Ahead(f, env, width, up, j)
      ensures Ruler(f.swept)(p.dst) - Ruler(f.swept)(p.src) == Distance(f, env)
    {
      AheadMember(f, env, width, up, j, p);
      var high, low, i :| 1 <= i <= width && p in FaceAt(f, env, width, low, high, i);
      FaceAtMember(f, env, width, low, high, i, p);
    }
  }

  lemma BehindLeaves(f: Face, env: Env, width: int, up: bool, j: int)
    requires 1 <= j <= width && f.dst.slope == -1
    ensures Leaves(Behind(f, env, width, up, j), Chosen(f, env, width, j).dst)
  {
    var chosen := Chosen(f, env, width, j);
    forall p | p in Behind(f, env, width, up, j) ensures p.dst != chosen.dst {
      SweepMember(f, env, width, f.lowTo, f.highTo, if up then j + 1 else 1, if up then width else j - 1, up, p);
      var i :| (if up then j + 1 else 1) <= i <= (if up then width else j - 1) &&
          p in FaceAt(f, env, width, f.lowTo, f.highTo, i);
      FaceAtMember(f, env, width, f.lowTo, f.highTo, i, p);
      assert Ruler(f.swept)(p.dst) != Ruler(f.swept)(chosen.dst);
    }
  }

  /** The chosen copy reads what iteration `j` plus the distance writes: that is not ahead of it in this direction. */
  lemma AheadLeaves(f: Face, env: Env, width: int, up: bool, j: int)
    requires f.rows > 0 && 1 <= j <= width && f.dst.slope == -1 && f.src.slope == -1 && Distance(f, env) != 0
    requires if up then Distance(f, env) > 0 else Distance(f, env) < 0
    ensures Leaves(Ahead(f, env, width, up, j), Chosen(f, env, width, j).src)
  {
    var chosen := Chosen(f, env, width, j);
    forall p | p in Ahead(f, env, width, up, j) ensures p.dst != chosen.src {
      AheadMember(f, env, width, up, j, p);
      var high, low, i :| 1 <= i <= width && p in FaceAt(f, env, width, low, high, i) &&
        (high != f.highTo || low != f.lowTo || (if up then i < j else i > j) || (i == j && p.dst.row < f.rows));
      FaceAtMember(f, env, width, low, high, i, p);
      if p.dst == chosen.src {
        PlacesEqual(f.swept, f.dst.At(env, f.ext, i) + width, low + width, high + width,
                    f.src.At(env, f.ext, j) + width, f.lowTo + width, f.highTo + width);
      }
    }
  }

  lemma PlacesEqual(swept: nat, x: int, low: int, high: int, x': int, low': int, high': int)
    requires Place(swept, x, low, high) == Place(swept, x', low', high')
    ensures x == x' && low == low' && high == high'
  {
    var a, b := Place(swept, x, low, high), Place(swept, x', low', high');
    assert a[0] == b[0] && a[1] == b[1] && a[2] == b[2];
  }

  lemma AheadWrites(f: Face, env: Env, width: int, up: bool, j: int)
    requires f.rows > 0 && 1 <= j <= width && f.dst.slope == -1 && f.src.slope == -1
    requires var i := j + Distance(f, env); if up then 1 <= i < j else j < i <= width
    ensures !Leaves(Ahead(f, env, width, up, j), Chosen(f, env, width, j).src)
  {
    var i := j + Distance(f, env);
    var p := Chosen(f, env, width, i);
    RowMember(f.rows, p.dst.at, p.src.at, p);
    assert p in FaceAt(f, env, width, f.lowTo, f.highTo, i);
    var first, last := if up then 1 else j + 1, if up then j - 1 else width;
    SweepMember(f, env, width, f.lowTo, f.highTo, first, last, up, p);
    var sooner := FaceSweep(f, env, width, f.lowTo, f.highTo, first, last, up);
    var rows := RowCopies(f.rows - 1, Chosen(f, env, width, j).dst.at, Chosen(f, env, width, j).src.at);
    assert p in sooner && p in Before(f, env, width, up) + sooner + rows;
    assert p.dst == Chosen(f, env, width, j).src;
  }

  /** Planes that overlap without coinciding: one direction carries values along, the other does not. */
  lemma OverlapDiffers(f: Face, env: Env, width: int)
    requires f.dst.slope == -1 && f.src.slope == -1 && !NoCells(f) && Distance(f, env) != 0 &&
             !PlanesApart(f, env, width)
    ensures !SameEnd(FaceCopies(f, env, width, false), FaceCopies(f, env, width, true))
  {
    var dirtyUp := Distance(f, env) < 0;
    var j := if dirtyUp then width else 1;
    var p := Chosen(f, env, width, j);
    ChosenSplits(f, env, width, true, j);
    ChosenSplits(f, env, width, false, j);
    BehindLeaves(f, env, width, true, j);
    BehindLeaves(f, env, width, false, j);
    AheadDrifts(f, env, width, dirtyUp, j);
    AheadWrites(f, env, width, dirtyUp, j);
    AheadLeaves(f, env, width, !dirtyUp, j);
    EndsDiffer(p, Ahead(f, env, width, dirtyUp, j), Behind(f, env, width, dirtyUp, j),
        Ahead(f, env, width, !dirtyUp, j),
               Behind(f, env, width, !dirtyUp, j), f.swept, !dirtyUp);
    assert After(FaceCopies(f, env, width, false), Ruler(f.swept), p.dst) !=
           After(FaceCopies(f, env, width, true), Ruler(f.swept), p.dst);
  }

  /** The kernel leaves every array as the face loop does exactly when the slope is +1, or the two planes share no cell
      or are one, or there is nothing to copy. */
  lemma FinalArrayIff(c: Call)
    requires c.NamesApart() && c.Agrees()
    ensures SameEnd(RunFrom(c.Code(), 0, c.env), FaceCopies(c.face, c.host, c.Width(), true)) <==>
            c.face.dst.slope == 1 || PlanesApart(c.face, c.host, c.Width()) || Distance(c.face, c.host) == 0 ||
                NoCells(c.face)
  {
    var f, w := c.face, c.Width();
    KernelIsFace(c);
    if f.dst.slope != 1 {
      if PlanesApart(f, c.host, w) {
        ApartSame(f, c.host, w);
      } else if Distance(f, c.host) == 0 || NoCells(f) {
        IdleSame(f, c.host, w);
      } else {
        OverlapDiffers(f, c.host, w);
      }
    }
  }
}
