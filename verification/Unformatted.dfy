/** Fortran sequential-unformatted files: each record stands between two equal length markers.  The readers, the writer,
    and which byte strings are files of records. */
module Unformatted {
  import opened Options

  newtype byte = x: int | 0 <= x < 256

  type Bytes = seq<byte>

  // ---------------------------------------------------------------- markers

  const HALF := 0x8000_0000
  const WHOLE := 0x1_0000_0000

  /** Least significant byte first. */
  function Unsigned(b: Bytes): (u: nat) {
    if b == [] then 0 else b[0] as int + 0x100 * Unsigned(b[1..])
  }

  function Digits(u: nat, n: nat): (b: Bytes)
    ensures |b| == n
  {
    if n == 0 then [] else [(u % 0x100) as byte] + Digits(u / 0x100, n - 1)
  }

  function Power(n: nat): nat {
    if n == 0 then 1 else 0x100 * Power(n - 1)
  }

  lemma {:induction false} UnsignedDigits(u: nat, n: nat)
    requires u < Power(n)
    ensures Unsigned(Digits(u, n)) == u
    decreases n
  {
    if n > 0 {
      UnsignedDigits(u / 0x100, n - 1);
      assert Digits(u, n)[1..] == Digits(u / 0x100, n - 1);
    }
  }

  lemma {:induction false} DigitsUnsigned(b: Bytes)
    ensures Unsigned(b) < Power(|b|) && Digits(Unsigned(b), |b|) == b
    decreases |b|
  {
    if b != [] {
      var rest := Unsigned(b[1..]);
      DigitsUnsigned(b[1..]);
      assert Unsigned(b) / 0x100 == rest && Unsigned(b) % 0x100 == b[0] as int;
      assert b == [b[0]] + b[1..];
    }
  }

  function Decode(b: Bytes): int {
    var u := Unsigned(b);
    if u >= HALF then u - WHOLE else u
  }

  function Encode(x: int): (b: Bytes)
    requires -HALF <= x < HALF
    ensures |b| == 4
  {
    Digits(if x < 0 then x + WHOLE else x, 4)
  }

  lemma DecodeEncode(x: int)
    requires -HALF <= x < HALF
    ensures Decode(Encode(x)) == x
  {
    UnsignedDigits(if x < 0 then x + WHOLE else x, 4);
  }

  lemma EncodeDecode(b: Bytes)
    requires |b| == 4
    ensures -HALF <= Decode(b) < HALF && Encode(Decode(b)) == b
  {
    DigitsUnsigned(b);
  }

  lemma SameMarkers(a: Bytes, b: Bytes)
    requires |a| == 4 && |b| == 4
    ensures Decode(a) == Decode(b) <==> a == b
  {
    EncodeDecode(a);
    EncodeDecode(b);
  }

  // ---------------------------------------------------------------- the readers and the writer

  /** The payload's length in bytes: a marker that is not a whole number of items counts items. */
  function PayloadLen(marker: int, itemsize: nat): Option<nat>
    requires itemsize > 0
  {
    if marker < 0 then None
    else if itemsize > 1 && marker % itemsize != 0 then Some(marker * itemsize)
    else Some(marker)
  }

  datatype Fault = TooShort | NegativeLength | RunsPast | Disagree | Trailing | CutMarker | TooLong

  datatype Result<T> = Ok(value: T) | Bad(fault: Fault)

  /** `read_record`: the only record of a file. */
  method ReadRecord(raw: Bytes, itemsize: nat) returns (r: Result<Bytes>)
    requires itemsize > 0
    ensures r.Ok? <==> OneRecord(raw, itemsize)
    ensures r.Ok? ==> r.value == raw[4..|raw| - 4]
  {
    if |raw| < 8 {
      return Bad(TooShort);
    }
    var head := Decode(raw[0..4]);
    assert raw[0..4] == raw[..4];
    var len := PayloadLen(head, itemsize);
    if len == None {
      return Bad(NegativeLength);
    }
    var n := len.value;
    if 4 + n + 4 > |raw| {
      return Bad(RunsPast);
    }
    var values := raw[4..4 + n];
    var tail := Decode(raw[4 + n..8 + n]);
    SameMarkers(raw[0..4], raw[4 + n..8 + n]);
    if tail != head {
      return Bad(Disagree);
    }
    if 8 + n != |raw| {
      return Bad(Trailing);
    }
    assert raw[4 + n..8 + n] == raw[|raw| - 4..];
    return Ok(values);
  }

  /** A marker, the payload it announces, the same four bytes again, and no more. */
  predicate OneRecord(raw: Bytes, itemsize: nat)
    requires itemsize > 0
  {
    |raw| >= 8 && PayloadLen(Decode(raw[..4]), itemsize) == Some(|raw| - 8) && raw[|raw| - 4..] == raw[..4]
  }

  /** How a reading ends: at the end of the file, or with a fault in the record that starts at `at`. */
  datatype Ending = Finished | Failed(fault: Fault, at: nat)

  /** What a reading yields before it ends. */
  datatype Reading = Reading(values: seq<Bytes>, ending: Ending)

  /** `read_records`: a record is yielded before its trailing marker is compared. */
  method ReadRecords(raw: Bytes, itemsize: nat) returns (r: Reading)
    requires itemsize > 0
    ensures r == Parse(raw, itemsize, 0)
  {
    var values, off := [], 0;
    while off < |raw|
      invariant 0 <= off <= |raw|
      invariant Parse(raw, itemsize, 0) == Prefixed(values, Parse(raw, itemsize, off))
      decreases |raw| - off
    {
      if off + 4 > |raw| {
        return Reading(values, Failed(CutMarker, off));
      }
      var head := Decode(raw[off..off + 4]);
      var len := PayloadLen(head, itemsize);
      if len == None {
        return Reading(values, Failed(NegativeLength, off));
      }
      var n := len.value;
      if off + 8 + n > |raw| {
        return Reading(values, Failed(RunsPast, off));
      }
      ghost var before := values;
      values := values + [raw[off + 4..off + 4 + n]];
      var tail := Decode(raw[off + 4 + n..off + 8 + n]);
      if tail != head {
        return Reading(values, Failed(Disagree, off));
      }
      off := off + 8 + n;
      PrefixedTwice(before, values[|before|], Parse(raw, itemsize, off));
    }
    return Reading(values, Finished);
  }

  function Prefixed(values: seq<Bytes>, r: Reading): Reading {
    Reading(values + r.values, r.ending)
  }

  lemma PrefixedTwice(values: seq<Bytes>, value: Bytes, r: Reading)
    ensures Prefixed(values, Prefixed([value], r)) == Prefixed(values + [value], r)
  {
    assert values + ([value] + r.values) == (values + [value]) + r.values;
  }

  function Parse(raw: Bytes, itemsize: nat, off: nat): Reading
    requires itemsize > 0 && off <= |raw|
    decreases |raw| - off
  {
    if off == |raw| then Reading([], Finished)
    else if off + 4 > |raw| then Reading([], Failed(CutMarker, off))
    else
      var head := Decode(raw[off..off + 4]);
      var len := PayloadLen(head, itemsize);
      if len == None then Reading([], Failed(NegativeLength, off))
      else
        var next := off + 8 + len.value;
        if next > |raw| then Reading([], Failed(RunsPast, off))
        else if Decode(raw[next - 4..next]) != head then Reading([raw[off + 4..next - 4]], Failed(Disagree, off))
        else Prefixed([raw[off + 4..next - 4]], Parse(raw, itemsize, next))
  }

  /** The items of an array of one type, all of the type's size. */
  predicate OfSize(items: seq<Bytes>, size: nat) {
    forall i :: 0 <= i < |items| ==> |items[i]| == size
  }

  /** The array's memory. */
  function ToBytes(items: seq<Bytes>): Bytes {
    if items == [] then [] else ToBytes(items[..|items| - 1]) + items[|items| - 1]
  }

  lemma {:induction false} BytesLength(items: seq<Bytes>, size: nat)
    requires OfSize(items, size)
    ensures |ToBytes(items)| == |items| * size
  {
    if items != [] {
      BytesLength(items[..|items| - 1], size);
      assert |items| * size == (|items| - 1) * size + size;
    }
  }

  /** `write_record`: the packing refuses a length that is no 32-bit integer. */
  method WriteRecord(items: seq<Bytes>, size: nat) returns (r: Result<Bytes>)
    requires OfSize(items, size)
    ensures if |items| * size < HALF then r == Ok(Frame(Record(|items| * size, ToBytes(items)))) else r == Bad(TooLong)
  {
    BytesLength(items, size);
    var payload := ToBytes(items);
    if |payload| >= HALF {
      return Bad(TooLong);
    }
    var n := Encode(|payload|);
    return Ok(n + payload + n);
  }

  // ---------------------------------------------------------------- files of records

  /** A record with the marker it is framed by: its length in bytes, or in items. */
  datatype Record = Record(marker: int, payload: Bytes)

  function Frame(r: Record): Bytes
    requires 0 <= r.marker < HALF
  {
    Encode(r.marker) + r.payload + Encode(r.marker)
  }

  /** The marker announces the payload. */
  predicate Framed(r: Record, itemsize: nat)
    requires itemsize > 0
  {
    0 <= r.marker < HALF && PayloadLen(r.marker, itemsize) == Some(|r.payload|)
  }

  ghost predicate AllFramed(rs: seq<Record>, itemsize: nat)
    requires itemsize > 0
  {
    forall i :: 0 <= i < |rs| ==> Framed(rs[i], itemsize)
  }

  ghost function File(rs: seq<Record>, itemsize: nat): Bytes
    requires itemsize > 0 && AllFramed(rs, itemsize)
  {
    if rs == [] then [] else Frame(rs[0]) + File(rs[1..], itemsize)
  }

  ghost function Payloads(rs: seq<Record>): seq<Bytes> {
    seq(|rs|, i requires 0 <= i < |rs| => rs[i].payload)
  }

  /** A reading some way into a file, its faults reported where they lie. */
  function Moved(r: Reading, shift: nat): Reading {
    if r.ending == Finished then r else Reading(r.values, Failed(r.ending.fault, r.ending.at + shift))
  }

  lemma SliceShift(a: Bytes, b: Bytes, i: nat, j: nat)
    requires i <= j <= |b|
    ensures (a + b)[|a| + i..|a| + j] == b[i..j]
  {
  }

  /** What comes before does not matter to what is read from some place on. */
  lemma {:induction false} ParseShift(a: Bytes, b: Bytes, itemsize: nat, k: nat)
    requires itemsize > 0 && k <= |b|
    ensures Parse(a + b, itemsize, |a| + k) == Moved(Parse(b, itemsize, k), |a|)
    decreases |b| - k
  {
    if RecordAhead(b, itemsize, k) {
      var next := k + 8 + PayloadLen(Decode(b[k..k + 4]), itemsize).value;
      ParseShift(a, b, itemsize, next);
      RecordShift(a, b, itemsize, k, next - k - 8);
    } else {
      FaultShift(a, b, itemsize, k);
    }
  }

  predicate RecordAhead(raw: Bytes, itemsize: nat, off: nat)
    requires itemsize > 0
  {
    off + 4 <= |raw| &&
    var len := PayloadLen(Decode(raw[off..off + 4]), itemsize);
    len.Some? && off + 8 + len.value <= |raw|
  }

  lemma FaultShift(a: Bytes, b: Bytes, itemsize: nat, k: nat)
    requires itemsize > 0 && k <= |b| && !RecordAhead(b, itemsize, k)
    ensures Parse(a + b, itemsize, |a| + k) == Moved(Parse(b, itemsize, k), |a|)
  {
    if k + 4 <= |b| {
      SliceShift(a, b, k, k + 4);
    }
  }

  lemma RecordShift(a: Bytes, b: Bytes, itemsize: nat, k: nat, n: nat)
    requires itemsize > 0 && RecordAhead(b, itemsize, k) && PayloadLen(Decode(b[k..k + 4]), itemsize) == Some(n)
    requires Parse(a + b, itemsize, |a| + (k + 8 + n)) == Moved(Parse(b, itemsize, k + 8 + n), |a|)
    ensures Parse(a + b, itemsize, |a| + k) == Moved(Parse(b, itemsize, k), |a|)
  {
    var next := k + 8 + n;
    SliceShift(a, b, k, k + 4);
    SliceShift(a, b, k + 4, next - 4);
    SliceShift(a, b, next - 4, next);
    ParseRecord(a + b, itemsize, |a| + k, Decode(b[k..k + 4]), n);
    ParseRecord(b, itemsize, k, Decode(b[k..k + 4]), n);
  }

  /** One record read, or its markers found to disagree. */
  lemma ParseRecord(raw: Bytes, itemsize: nat, off: nat, head: int, n: nat)
    requires itemsize > 0 && off + 8 + n <= |raw| && head == Decode(raw[off..off + 4]) &&
             PayloadLen(head, itemsize) == Some(n)
    ensures var next := off + 8 + n;
            Parse(raw, itemsize, off) ==
            if Decode(raw[next - 4..next]) != head then Reading([raw[off + 4..next - 4]], Failed(Disagree, off))
            else Prefixed([raw[off + 4..next - 4]], Parse(raw, itemsize, next))
  {
  }

  /** A framed record is read off the front. */
  lemma ParseFrame(r: Record, rest: Bytes, itemsize: nat)
    requires itemsize > 0 && Framed(r, itemsize)
    ensures Parse(Frame(r) + rest, itemsize, 0) == Prefixed([r.payload], Moved(Parse(rest, itemsize, 0), |Frame(r)|))
  {
    var raw, n := Frame(r) + rest, |r.payload|;
    DecodeEncode(r.marker);
    assert raw[0..4] == Encode(r.marker) && raw[4..4 + n] == r.payload && raw[4 + n..8 + n] == Encode(r.marker);
    ParseShift(Frame(r), rest, itemsize, 0);
  }

  lemma FirstThenMore(rs: seq<Record>, r: Reading, more: nat, first: nat)
    requires rs != []
    ensures Prefixed([rs[0].payload], Moved(Prefixed(Payloads(rs[1..]), Moved(r, more)), first)) ==
            Prefixed(Payloads(rs), Moved(r, first + more))
  {
    assert Payloads(rs) == [rs[0].payload] + Payloads(rs[1..]);
    assert [rs[0].payload] + (Payloads(rs[1..]) + r.values) == Payloads(rs) + r.values;
  }

  /** Reading `raw` yields the payloads of `rs`, then what `r` yields, `r` lying `at` bytes on. */
  ghost predicate ReadsAs(raw: Bytes, itemsize: nat, rs: seq<Record>, r: Reading, at: nat)
    requires itemsize > 0
  {
    Parse(raw, itemsize, 0) == Prefixed(Payloads(rs), Moved(r, at))
  }

  lemma NextRecord(rs: seq<Record>, more: Bytes, itemsize: nat, r: Reading, at: nat)
    requires itemsize > 0 && rs != [] && Framed(rs[0], itemsize) && ReadsAs(more, itemsize, rs[1..], r, at)
    ensures ReadsAs(Frame(rs[0]) + more, itemsize, rs, r, |Frame(rs[0])| + at)
  {
    ParseFrame(rs[0], more, itemsize);
    FirstThenMore(rs, r, at, |Frame(rs[0])|);
  }

  /** Records, then anything: the records are read, then the rest as if it stood alone. */
  lemma {:induction false} RecordsFirst(rs: seq<Record>, rest: Bytes, itemsize: nat)
    requires itemsize > 0 && AllFramed(rs, itemsize)
    ensures ReadsAs(File(rs, itemsize) + rest, itemsize, rs, Parse(rest, itemsize, 0), |File(rs, itemsize)|)
    decreases |rs|
  {
    if rs == [] {
      assert [] + rest == rest;
    } else {
      var more, first, r := File(rs[1..], itemsize), Frame(rs[0]), Parse(rest, itemsize, 0);
      RecordsFirst(rs[1..], rest, itemsize);
      NextRecord(rs, more + rest, itemsize, r, |more|);
      assert File(rs, itemsize) + rest == first + (more + rest);
    }
  }

  /** What `write_record` writes for each payload, one after the other. */
  ghost function Written(payloads: seq<Bytes>): Bytes
    requires forall p :: p in payloads ==> |p| < HALF
  {
    if payloads == [] then [] else Frame(Record(|payloads[0]|, payloads[0])) + Written(payloads[1..])
  }

  /** A whole number of items. */
  predicate Whole(p: Bytes, itemsize: nat)
    requires itemsize > 0
  {
    |p| % itemsize == 0
  }

  /** A payload that is no whole number of items comes first: its length is taken for a count of items. */
  lemma PartItemsFirst(payload: Bytes, rest: Bytes, itemsize: nat)
    requires itemsize > 0 && |payload| < HALF && !Whole(payload, itemsize)
    ensures var got := Parse(Frame(Record(|payload|, payload)) + rest, itemsize, 0).values;
            got == [] || |got[0]| > |payload|
  {
    var raw := Frame(Record(|payload|, payload)) + rest;
    DecodeEncode(|payload|);
    assert raw[0..4] == Encode(|payload|);
    assert itemsize > 1 && |payload| > 0;
    assert |payload| * itemsize > |payload|;
  }

  lemma {:induction false} PayloadsIff(payloads: seq<Bytes>, itemsize: nat)
    requires itemsize > 0 && forall p :: p in payloads ==> |p| < HALF
    ensures Parse(Written(payloads), itemsize, 0) == Reading(payloads, Finished) <==>
            forall p :: p in payloads ==> Whole(p, itemsize)
    decreases |payloads|
  {
    if payloads != [] {
      var first, rest := payloads[0], payloads[1..];
      assert payloads == [first] + rest;
      if Whole(first, itemsize) {
        PayloadsIff(rest, itemsize);
        ParseFrame(Record(|first|, first), Written(rest), itemsize);
        AnotherFirst(first, Parse(Written(rest), itemsize, 0), rest, |Frame(Record(|first|, first))|);
      } else {
        PartItemsFirst(first, Written(rest), itemsize);
      }
    }
  }

  lemma AnotherFirst(first: Bytes, r: Reading, rest: seq<Bytes>, shift: nat)
    ensures Prefixed([first], Moved(r, shift)) == Reading([first] + rest, Finished) <==> r == Reading(rest, Finished)
  {
    assert ([first] + r.values)[1..] == r.values && ([first] + rest)[1..] == rest;
  }

  ghost function AllBytes(arrays: seq<seq<Bytes>>): seq<Bytes> {
    seq(|arrays|, i requires 0 <= i < |arrays| => ToBytes(arrays[i]))
  }

  lemma {:induction false} AtLeast(d: int, size: nat)
    requires d >= 1
    ensures d * size >= size
    decreases d
  {
    if d > 1 {
      AtLeast(d - 1, size);
      assert d * size == (d - 1) * size + size;
    }
  }

  lemma WholeMultiple(n: nat, size: nat)
    requires size > 0
    ensures n * size % size == 0
  {
    var x := n * size;
    var q, r := x / size, x % size;
    assert x == size * q + r;
    assert (n - q) * size == r && (q - n) * size == -r;
    if n - q >= 1 {
      AtLeast(n - q, size);
    } else if q - n >= 1 {
      AtLeast(q - n, size);
    }
  }

  /** Arrays of items of one size, each under 2^31 bytes, written one after the other and read with items of another
      size: they come back in order, with the file read to its end, exactly when each is a whole number of the reader's
      items; read with the size they were written with, always. */
  lemma RoundTripIff(arrays: seq<seq<Bytes>>, size: nat, itemsize: nat)
    requires size > 0 && itemsize > 0
    requires forall a :: a in arrays ==> OfSize(a, size) && |a| * size < HALF
    ensures forall p :: p in AllBytes(arrays) ==> |p| < HALF
    ensures Parse(Written(AllBytes(arrays)), itemsize, 0) == Reading(AllBytes(arrays), Finished) <==>
            forall a :: a in arrays ==> |a| * size % itemsize == 0
    ensures size == itemsize ==> Parse(Written(AllBytes(arrays)), itemsize, 0) == Reading(AllBytes(arrays), Finished)
  {
    var payloads := AllBytes(arrays);
    forall i | 0 <= i < |arrays| ensures |payloads[i]| == |arrays[i]| * size && |payloads[i]| < HALF {
      assert arrays[i] in arrays;
      BytesLength(arrays[i], size);
      WholeMultiple(|arrays[i]|, size);
    }
    PayloadsIff(payloads, itemsize);
    SizesMatch(arrays, payloads, size, itemsize);
    forall a | a in arrays ensures |a| * size % size == 0 {
      WholeMultiple(|a|, size);
    }
  }

  lemma SizesMatch(arrays: seq<seq<Bytes>>, payloads: seq<Bytes>, size: nat, itemsize: nat)
    requires itemsize > 0 && |payloads| == |arrays| && forall i :: 0 <= i < |arrays| ==>
             |payloads[i]| == |arrays[i]| * size
    ensures (forall p :: p in payloads ==> Whole(p, itemsize)) <==>
            (forall a :: a in arrays ==> |a| * size % itemsize == 0)
  {
    forall i | 0 <= i < |arrays| ensures Whole(payloads[i], itemsize) <==> |arrays[i]| * size % itemsize == 0 {}
    if forall p :: p in payloads ==> Whole(p, itemsize) {
      forall a | a in arrays ensures |a| * size % itemsize == 0 {
        var i :| 0 <= i < |arrays| && arrays[i] == a;
        assert payloads[i] in payloads;
      }
    }
    if forall a :: a in arrays ==> |a| * size % itemsize == 0 {
      forall p | p in payloads ensures Whole(p, itemsize) {
        var i :| 0 <= i < |payloads| && payloads[i] == p;
        assert arrays[i] in arrays;
      }
    }
  }

  /** A file read to its end is records, one after the other, with nothing left over. */
  lemma {:induction false} ReadIsRecords(raw: Bytes, itemsize: nat, off: nat) returns (rs: seq<Record>)
    requires itemsize > 0 && off <= |raw| && Parse(raw, itemsize, off).ending == Finished
    ensures AllFramed(rs, itemsize) && raw[off..] == File(rs, itemsize) &&
            Payloads(rs) == Parse(raw, itemsize, off).values
    decreases |raw| - off
  {
    rs := [];
    if off < |raw| {
      var r, next := FirstRecord(raw, itemsize, off);
      var more := ReadIsRecords(raw, itemsize, next);
      rs := [r] + more;
      assert rs[1..] == more && Payloads(rs) == [r.payload] + Payloads(more);
      assert File(rs, itemsize) == Frame(r) + File(more, itemsize);
    }
  }

  /** The first record of what is read to its end. */
  lemma FirstRecord(raw: Bytes, itemsize: nat, off: nat) returns (r: Record, next: nat)
    requires itemsize > 0 && off < |raw| && Parse(raw, itemsize, off).ending == Finished
    ensures Framed(r, itemsize) && off < next <= |raw| && raw[off..] == Frame(r) + raw[next..]
    ensures Parse(raw, itemsize, off) == Prefixed([r.payload], Parse(raw, itemsize, next))
  {
    var head := Decode(raw[off..off + 4]);
    next := off + 8 + PayloadLen(head, itemsize).value;
    r := Record(head, raw[off + 4..next - 4]);
    EncodeDecode(raw[off..off + 4]);
    EncodeDecode(raw[next - 4..next]);
    assert raw[off..] == raw[off..off + 4] + raw[off + 4..next - 4] + raw[next - 4..next] + raw[next..];
  }

  /** The files accepted are exactly the sequences of framed records. */
  lemma AcceptedIff(raw: Bytes, itemsize: nat)
    requires itemsize > 0
    ensures Parse(raw, itemsize, 0).ending == Finished <==>
            exists rs :: AllFramed(rs, itemsize) && raw == File(rs, itemsize)
  {
    if Parse(raw, itemsize, 0).ending == Finished {
      var rs := ReadIsRecords(raw, itemsize, 0);
      assert raw[0..] == raw;
    }
    if rs :| AllFramed(rs, itemsize) && raw == File(rs, itemsize) {
      RecordsFirst(rs, [], itemsize);
      assert raw + [] == raw;
    }
  }

  /** A file cut inside a record: the records before the cut are read, and the cut is noticed. */
  lemma CutNoticed(rs: seq<Record>, r: Record, cut: nat, itemsize: nat)
    requires itemsize > 0 && AllFramed(rs, itemsize) && Framed(r, itemsize) && 0 < cut < |Frame(r)|
    ensures var got := Parse(File(rs, itemsize) + Frame(r)[..cut], itemsize, 0);
            got.values == Payloads(rs) && got.ending.Failed? && got.ending.at == |File(rs, itemsize)|
  {
    var part := Frame(r)[..cut];
    RecordsFirst(rs, part, itemsize);
    DecodeEncode(r.marker);
    if cut >= 4 {
      assert part[0..4] == Encode(r.marker);
    }
    assert Payloads(rs) + [] == Payloads(rs);
  }

  lemma DisagreementFirst(r: Record, tail: int, rest: Bytes, itemsize: nat)
    requires itemsize > 0 && Framed(r, itemsize) && -HALF <= tail < HALF && tail != r.marker
    ensures Parse(Encode(r.marker) + r.payload + Encode(tail) + rest, itemsize, 0) ==
            Reading([r.payload], Failed(Disagree, 0))
  {
    var part, n := Encode(r.marker) + r.payload + Encode(tail) + rest, |r.payload|;
    DecodeEncode(r.marker);
    DecodeEncode(tail);
    assert part[0..4] == Encode(r.marker) && part[4..4 + n] == r.payload && part[4 + n..8 + n] == Encode(tail);
  }

  /** Markers that disagree are noticed, after the payload between them was yielded. */
  lemma DisagreementYieldsFirst(rs: seq<Record>, r: Record, tail: int, rest: Bytes, itemsize: nat)
    requires itemsize > 0 && AllFramed(rs, itemsize) && Framed(r, itemsize) && -HALF <= tail < HALF && tail != r.marker
    ensures Parse(File(rs, itemsize) + (Encode(r.marker) + r.payload + Encode(tail) + rest), itemsize, 0) ==
            Reading(Payloads(rs) + [r.payload], Failed(Disagree, |File(rs, itemsize)|))
  {
    RecordsFirst(rs, Encode(r.marker) + r.payload + Encode(tail) + rest, itemsize);
    DisagreementFirst(r, tail, rest, itemsize);
  }

  /** The single-record reader accepts what the other reads as one record. */
  lemma OneRecordIff(raw: Bytes, itemsize: nat)
    requires itemsize > 0
    ensures OneRecord(raw, itemsize) <==>
            Parse(raw, itemsize, 0).ending == Finished && |Parse(raw, itemsize, 0).values| == 1
    ensures OneRecord(raw, itemsize) ==> Parse(raw, itemsize, 0).values == [raw[4..|raw| - 4]]
  {
    if OneRecord(raw, itemsize) {
      EncodeDecode(raw[..4]);
      var r := Record(Decode(raw[..4]), raw[4..|raw| - 4]);
      assert raw == Frame(r) + [];
      ParseFrame(r, [], itemsize);
    }
    if Parse(raw, itemsize, 0).ending == Finished && |Parse(raw, itemsize, 0).values| == 1 {
      var r, next := FirstRecord(raw, itemsize, 0);
      assert next == |raw| && raw[0..] == raw && raw == Frame(r) + [];
      assert raw[..4] == Encode(r.marker) && raw[|raw| - 4..] == Encode(r.marker);
      DecodeEncode(r.marker);
    }
  }

  /** A file framed by a count of items is read right exactly when that many bytes are no whole number of items (or
      there are none, or items are bytes); otherwise it is refused. */
  lemma ItemCountIff(payload: Bytes, count: nat, itemsize: nat)
    requires itemsize > 0 && count < HALF && |payload| == count * itemsize
    ensures OneRecord(Frame(Record(count, payload)), itemsize) <==> itemsize == 1 || count == 0 || count % itemsize != 0
  {
    var raw := Frame(Record(count, payload));
    assert raw[..4] == Encode(count) && raw[|raw| - 4..] == Encode(count);
    DecodeEncode(count);
    if itemsize > 1 && count > 0 {
      assert count * itemsize > count;
    }
  }
}
