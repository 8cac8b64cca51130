/** Schemaless probing of the protobuf wire format (src/pi_agent_chain/payload_normalizer.py). */
module ProtobufProbe {
  import opened Basics

  datatype Field = Field(number: nat, wireType: nat)
  datatype Probed = Probed(fieldCount: nat, fields: seq<Field>)

  const MAX_FIELD_NUMBER := 536870911
  const PROBE_LIMIT := 4096

  /** x shifted left by e bits. */
  function Shl(x: nat, e: nat): nat {
    if e == 0 then x else 2 * Shl(x, e - 1)
  }

  lemma {:induction false} ShlAdd(x: nat, y: nat, e: nat)
    ensures Shl(x + y, e) == Shl(x, e) + Shl(y, e)
  {
    if e > 0 {
      ShlAdd(x, y, e - 1);
    }
  }

  lemma {:induction false} ShlSeven(x: nat, e: nat)
    ensures Shl(x, e + 7) == Shl(128 * x, e)
  {
    if e == 0 {
      assert Shl(x, 7) == 2 * Shl(x, 6) == 4 * Shl(x, 5) == 8 * Shl(x, 4);
      assert Shl(x, 4) == 2 * Shl(x, 3) == 4 * Shl(x, 2) == 8 * Shl(x, 1) == 16 * x;
    } else {
      ShlSeven(x, e - 1);
    }
  }

  /** A byte without its continuation bit. */
  function Low7(b: Byte): nat {
    if b >= 128 then b - 128 else b
  }

  /** Or-ing the low bits of b into acc from bit shift on: an addition, as acc has no bit there or above. */
  function OrShifted(acc: nat, b: Byte, shift: nat): (r: nat)
    requires acc < Shl(1, shift)
    ensures r < Shl(1, shift + 7)
  {
    OrFits(acc, Low7(b), shift);
    acc + Shl(Low7(b), shift)
  }

  lemma OrFits(acc: nat, bits: nat, shift: nat)
    requires acc < Shl(1, shift) && bits < 128
    ensures acc + Shl(bits, shift) < Shl(1, shift + 7)
  {
    ShlSeven(1, shift);
    ShlAdd(bits, 1, shift);
    ShlAdd(bits + 1, 127 - bits, shift);
    assert bits + 1 + (127 - bits) == 128;
  }

  // ----- what the probe reads, as functions of the bytes d below the probe limit and a position

  datatype Read = Read(value: nat, pos: nat)

  /** A tag varint of at most five bytes; None when the bytes run out first. */
  function ReadTag(d: seq<Byte>, pos: nat, tag: nat, shift: nat): (r: Option<Read>)
    requires pos <= |d| && tag < Shl(1, shift)
    ensures r.Some? ==> pos < r.value.pos <= |d|
    decreases |d| - pos
  {
    if pos == |d| then None else
      var t := OrShifted(tag, d[pos], shift);
      if d[pos] < 128 || shift + 7 > 28 then Some(Read(t, pos + 1)) else ReadTag(d, pos + 1, t, shift + 7)
  }

  /** A length varint of any size; what has been read so far when the bytes run out. */
  function ReadLength(d: seq<Byte>, pos: nat, length: nat, shift: nat): (r: Read)
    requires pos <= |d| && length < Shl(1, shift)
    ensures pos <= r.pos <= |d|
    decreases |d| - pos
  {
    if pos == |d| then Read(length, pos) else
      var l := OrShifted(length, d[pos], shift);
      if d[pos] < 128 then Read(l, pos + 1) else ReadLength(d, pos + 1, l, shift + 7)
  }

  /** Position just after the first byte without continuation bit, one past the end if there is none. */
  function VarintEnd(d: seq<Byte>, pos: nat): (end: nat)
    requires pos <= |d|
    ensures pos < end <= |d| + 1
    decreases |d| - pos
  {
    if pos == |d| || d[pos] < 128 then pos + 1 else VarintEnd(d, pos + 1)
  }

  function LengthEnd(d: seq<Byte>, pos: nat): (end: nat)
    requires pos <= |d|
    ensures pos <= end
  {
    var r := ReadLength(d, pos, 0, 0);
    r.pos + r.value
  }

  /** Position after the value of a field (possibly beyond the end); None for other wire types. */
  function ValueEnd(d: seq<Byte>, pos: nat, wireType: nat): (end: Option<nat>)
    requires pos <= |d|
    ensures end.Some? ==> end.value >= pos
  {
    if wireType == 0 then Some(VarintEnd(d, pos))
    else if wireType == 1 then Some(pos + 8)
    else if wireType == 2 then Some(LengthEnd(d, pos))
    else if wireType == 5 then Some(pos + 4)
    else None
  }

  function Scan(d: seq<Byte>, pos: nat): seq<Field>
    requires pos <= |d|
    decreases |d| - pos, 0
  {
    if pos == |d| then [] else
      var tag := ReadTag(d, pos, 0, 0);
      if tag.None? then [] else ScanField(d, tag.value.pos, tag.value.value / 8, tag.value.value % 8)
  }

  function ScanField(d: seq<Byte>, pos: nat, number: nat, wireType: nat): seq<Field>
    requires pos <= |d|
    decreases |d| - pos, 2
  {
    if number == 0 || number > MAX_FIELD_NUMBER then [] else
      [Field(number, wireType)] + ScanRest(d, ValueEnd(d, pos, wireType), pos)
  }

  function ScanRest(d: seq<Byte>, end: Option<nat>, ghost pos: nat): seq<Field>
    requires pos <= |d| && (end.Some? ==> end.value >= pos)
    decreases |d| - pos, 1
  {
    if end.None? || end.value > |d| then [] else Scan(d, end.value)
  }

  function Min(a: nat, b: nat): nat {
    if a < b then a else b
  }

  function Result(data: seq<Byte>): Option<Probed> {
    if |data| < 2 then None else
      var fields := Scan(data[..Min(|data|, PROBE_LIMIT)], 0);
      if fields == [] then None else Some(Probed(|fields|, fields[..Min(|fields|, 64)]))
  }

  // ----- the probe

  /** One round of the scan, from what ParseTag returned. */
  lemma ScanRound(d: seq<Byte>, pos: nat, ok: bool, tag: nat, next: nat)
    requires pos < |d| && ReadTag(d, pos, 0, 0) == if ok then Some(Read(tag, next)) else None
    ensures !ok ==> Scan(d, pos) == []
    ensures ok ==> next <= |d|
    ensures ok && (tag / 8 == 0 || tag / 8 > MAX_FIELD_NUMBER) ==> Scan(d, pos) == []
    ensures ok && 1 <= tag / 8 <= MAX_FIELD_NUMBER ==>
      Scan(d, pos) == [Field(tag / 8, tag % 8)] + ScanRest(d, ValueEnd(d, next, tag % 8), next)
  {
  }

  lemma AppendField(before: seq<Field>, f: Field, rest: seq<Field>)
    ensures before + ([f] + rest) == before + [f] + rest
    ensures rest == [] ==> before + [f] + rest == before + [f]
  {
  }

  method ParseTag(data: seq<Byte>, ghost d: seq<Byte>, start: nat, maxProbe: nat) returns (ok: bool, tag: nat, pos: nat)
    requires start <= maxProbe <= |data| && d == data[..maxProbe]
    ensures ReadTag(d, start, 0, 0) == if ok then Some(Read(tag, pos)) else None
  {
    tag, pos := 0, start;
    var shift: nat := 0;
    while pos < maxProbe
      invariant start <= pos <= maxProbe && tag < Shl(1, shift)
      invariant ReadTag(d, pos, tag, shift) == ReadTag(d, start, 0, 0)
    {
      var byte := data[pos];
      assert byte == d[pos];
      tag := OrShifted(tag, byte, shift);
      pos := pos + 1;
      if byte < 128 {
        return true, tag, pos;
      }
      shift := shift + 7;
      if shift > 28 {
        return true, tag, pos;
      }
    }
    ok := false;
  }

  method SkipVarint(data: seq<Byte>, ghost d: seq<Byte>, start: nat, maxProbe: nat) returns (pos: nat)
    requires start <= maxProbe <= |data| && d == data[..maxProbe]
    ensures pos == VarintEnd(d, start)
  {
    pos := start;
    while pos < maxProbe && data[pos] >= 128
      invariant start <= pos <= maxProbe && VarintEnd(d, pos) == VarintEnd(d, start)
    {
      pos := pos + 1;
    }
    pos := pos + 1;
  }

  method SkipLengthDelimited(data: seq<Byte>, ghost d: seq<Byte>, start: nat, maxProbe: nat) returns (pos: nat)
    requires start <= maxProbe <= |data| && d == data[..maxProbe]
    ensures pos == LengthEnd(d, start)
  {
    pos := start;
    var length: nat, shift: nat := 0, 0;
    while pos < maxProbe
      invariant start <= pos <= maxProbe && length < Shl(1, shift)
      invariant ReadLength(d, pos, length, shift) == ReadLength(d, start, 0, 0)
    {
      var byte := data[pos];
      assert byte == d[pos];
      pos := pos + 1;
      length := OrShifted(length, byte, shift);
      if byte < 128 {
        pos := pos + length;
        return;
      }
      shift := shift + 7;
    }
    pos := pos + length;
  }

  method Probe(data: seq<Byte>) returns (r: Option<Probed>)
    ensures r == Result(data)
  {
    if |data| < 2 {
      return None;
    }
    var fields: seq<Field>, pos: nat, maxProbe := [], 0, Min(|data|, PROBE_LIMIT);
    ghost var d := data[..maxProbe];
    while pos < maxProbe
      invariant pos <= maxProbe
      invariant fields + Scan(d, pos) == Scan(d, 0)
    {
      var ok, tag, next := ParseTag(data, d, pos, maxProbe);
      ScanRound(d, pos, ok, tag, next);
      if !ok {
        break;
      }
      var number, wireType := tag / 8, tag % 8;
      if number == 0 || number > MAX_FIELD_NUMBER {
        break;
      }
      AppendField(fields, Field(number, wireType), ScanRest(d, ValueEnd(d, next, wireType), next));
      fields := fields + [Field(number, wireType)];
      if wireType == 0 {
        pos := SkipVarint(data, d, next, maxProbe);
      } else if wireType == 1 {
        pos := next + 8;
      } else if wireType == 2 {
        pos := SkipLengthDelimited(data, d, next, maxProbe);
      } else if wireType == 5 {
        pos := next + 4;
      } else {
        break;
      }
      if pos > maxProbe {
        break;
      }
    }
    assert fields == Scan(d, 0);
    r := if |fields| >= 1 then Some(Probed(|fields|, fields[..Min(|fields|, 64)])) else None;
  }

  // ----- the encoder

  /** A varint may be padded: pad is the number of bytes beyond its shortest form. */
  datatype Value =
    | Varint(n: nat, pad: nat)
    | Fixed64(bytes: seq<Byte>)
    | Bytes(payload: seq<Byte>, pad: nat)
    | Fixed32(bytes: seq<Byte>)

  datatype WireField = WireField(number: nat, tagPad: nat, value: Value) {
    /** Protocol Buffers Encoding, "Message Structure"; a tag is a 32-bit varint of at most five bytes. */
    ghost predicate Valid() {
      && 1 <= number <= 0x1FFF_FFFF && |TagBytes()| <= 5
      && (value.Fixed64? ==> |value.bytes| == 8)
      && (value.Fixed32? ==> |value.bytes| == 4)
    }

    function WireType(): nat {
      match value
      case Varint(_, _) => 0 case Fixed64(_) => 1 case Bytes(_, _) => 2 case Fixed32(_) => 5
    }

    function TagBytes(): seq<Byte> {
      EncodeVarint(number * 8 + WireType(), tagPad)
    }

    function ValueBytes(): seq<Byte> {
      match value
      case Varint(n, pad) => EncodeVarint(n, pad)
      case Fixed64(b) => b
      case Bytes(p, pad) => EncodeVarint(|p|, pad) + p
      case Fixed32(b) => b
    }

    function Encoded(): seq<Byte> {
      TagBytes() + ValueBytes()
    }

    function Tag(): Field {
      Field(number, WireType())
    }
  }

  /** Only the last byte of a varint is without continuation bit. */
  ghost predicate VarintShaped(s: seq<Byte>) {
    |s| >= 1 && s[|s| - 1] < 128 && forall i :: 0 <= i < |s| - 1 ==> s[i] >= 128
  }

  /** Protocol Buffers Encoding, "Base 128 Varints". */
  function EncodeVarint(n: nat, pad: nat): (s: seq<Byte>)
    ensures VarintShaped(s)
    decreases n, pad
  {
    if n < 128 && pad == 0 then [n]
    else ConsVarint(128 + n % 128, EncodeVarint(n / 128, if n < 128 then pad - 1 else pad))
  }

  function ConsVarint(b: Byte, s: seq<Byte>): (r: seq<Byte>)
    requires b >= 128 && VarintShaped(s)
    ensures VarintShaped(r)
  {
    [b] + s
  }

  /** The encoder leaves nothing out: every byte string of that shape is the encoding of a number. */
  lemma {:induction false} EveryVarintIsEncoded(s: seq<Byte>) returns (n: nat, pad: nat)
    requires VarintShaped(s)
    ensures s == EncodeVarint(n, pad)
  {
    if |s| == 1 {
      n, pad := s[0], 0;
    } else {
      var m, p := EveryVarintIsEncoded(s[1..]);
      n, pad := s[0] - 128 + 128 * m, if m == 0 then p + 1 else p;
      assert n % 128 == s[0] - 128 && n / 128 == m;
      assert s == [s[0]] + s[1..];
    }
  }

  function Encode(fs: seq<WireField>): seq<Byte> {
    if fs == [] then [] else fs[0].Encoded() + Encode(fs[1..])
  }

  function Tags(fs: seq<WireField>): (t: seq<Field>)
    ensures |t| == |fs|
  {
    if fs == [] then [] else [fs[0].Tag()] + Tags(fs[1..])
  }

  // ----- reading back varints

  /** The bytes p stand in d at position pos. */
  ghost predicate At(d: seq<Byte>, pos: nat, p: seq<Byte>) {
    pos + |p| <= |d| && d[pos..pos + |p|] == p
  }

  lemma AtTail(d: seq<Byte>, pos: nat, p: seq<Byte>)
    requires At(d, pos, p) && p != []
    ensures d[pos] == p[0] && At(d, pos + 1, p[1..])
  {
    assert d[pos..pos + |p|][0] == p[0];
    assert d[pos + 1..pos + |p|] == d[pos..pos + |p|][1..];
  }

  lemma ShlStep(n: nat, acc: nat, shift: nat)
    ensures acc + Shl(n % 128, shift) + Shl(n / 128, shift + 7) == acc + Shl(n, shift)
  {
    ShlSeven(n / 128, shift);
    ShlAdd(n % 128, 128 * (n / 128), shift);
    assert n % 128 + 128 * (n / 128) == n;
  }

  lemma VarintHead(d: seq<Byte>, pos: nat, n: nat, pad: nat)
    requires At(d, pos, EncodeVarint(n, pad))
    ensures pos < |d| && (d[pos] < 128 <==> n < 128 && pad == 0) && Low7(d[pos]) == n % 128
    ensures d[pos] < 128 ==> |EncodeVarint(n, pad)| == 1
    ensures d[pos] >= 128 ==>
      var tail := EncodeVarint(n / 128, if n < 128 then pad - 1 else pad);
      At(d, pos + 1, tail) && |EncodeVarint(n, pad)| == 1 + |tail|
  {
    AtTail(d, pos, EncodeVarint(n, pad));
    if n >= 128 || pad > 0 {
      assert EncodeVarint(n, pad)[1..] == EncodeVarint(n / 128, if n < 128 then pad - 1 else pad);
    }
  }

  /** k is the number of tag bytes already read. */
  lemma {:induction false} ReadTagBack(d: seq<Byte>, pos: nat, n: nat, pad: nat, acc: nat, k: nat)
    requires acc < Shl(1, 7 * k) && At(d, pos, EncodeVarint(n, pad)) && k + |EncodeVarint(n, pad)| <= 5
    ensures ReadTag(d, pos, acc, 7 * k) == Some(Read(acc + Shl(n, 7 * k), pos + |EncodeVarint(n, pad)|))
    decreases n, pad
  {
    VarintHead(d, pos, n, pad);
    if n >= 128 || pad > 0 {
      ShlStep(n, acc, 7 * k);
      ReadTagBack(d, pos + 1, n / 128, if n < 128 then pad - 1 else pad, OrShifted(acc, d[pos], 7 * k), k + 1);
    }
  }

  lemma {:induction false} ShlConst(e: nat)
    ensures Shl(128, e) == 128 * Shl(1, e)
  {
    if e > 0 {
      ShlConst(e - 1);
    }
  }

  lemma {:induction false} ReadLengthBack(d: seq<Byte>, pos: nat, n: nat, pad: nat, acc: nat, shift: nat)
    requires acc < Shl(1, shift) && At(d, pos, EncodeVarint(n, pad))
    ensures ReadLength(d, pos, acc, shift) == Read(acc + Shl(n, shift), pos + |EncodeVarint(n, pad)|)
    decreases n, pad
  {
    VarintHead(d, pos, n, pad);
    if n >= 128 || pad > 0 {
      ShlStep(n, acc, shift);
      ReadLengthBack(d, pos + 1, n / 128, if n < 128 then pad - 1 else pad, OrShifted(acc, d[pos], shift), shift + 7);
    }
  }

  lemma {:induction false} VarintEndBack(d: seq<Byte>, pos: nat, n: nat, pad: nat)
    requires At(d, pos, EncodeVarint(n, pad))
    ensures VarintEnd(d, pos) == pos + |EncodeVarint(n, pad)|
    decreases n, pad
  {
    VarintHead(d, pos, n, pad);
    if n >= 128 || pad > 0 {
      VarintEndBack(d, pos + 1, n / 128, if n < 128 then pad - 1 else pad);
    }
  }

  // ----- bytes that end inside a varint

  ghost predicate OnlyContinuations(d: seq<Byte>, pos: nat) {
    pos <= |d| && forall i :: pos <= i < |d| ==> d[i] >= 128
  }

  lemma CutInsideVarint(d: seq<Byte>, pos: nat, s: seq<Byte>)
    requires VarintShaped(s) && pos <= |d| && |d| - pos < |s| && d[pos..] <= s
    ensures OnlyContinuations(d, pos)
  {
    forall i | pos <= i < |d| ensures d[i] >= 128 {
      assert d[pos..][i - pos] == s[i - pos];
    }
  }

  lemma {:induction false} CutTag(d: seq<Byte>, pos: nat, tag: nat, shift: nat)
    requires OnlyContinuations(d, pos) && tag < Shl(1, shift) && shift + 7 * (|d| - pos) <= 28
    ensures ReadTag(d, pos, tag, shift) == None
    decreases |d| - pos
  {
    if pos < |d| {
      CutTag(d, pos + 1, OrShifted(tag, d[pos], shift), shift + 7);
    }
  }

  lemma {:induction false} CutLength(d: seq<Byte>, pos: nat, length: nat, shift: nat)
    requires OnlyContinuations(d, pos) && length < Shl(1, shift)
    ensures ReadLength(d, pos, length, shift).pos == |d|
    decreases |d| - pos
  {
    if pos < |d| {
      CutLength(d, pos + 1, OrShifted(length, d[pos], shift), shift + 7);
    }
  }

  lemma {:induction false} CutVarint(d: seq<Byte>, pos: nat)
    requires OnlyContinuations(d, pos)
    ensures VarintEnd(d, pos) == |d| + 1
    decreases |d| - pos
  {
    if pos < |d| {
      CutVarint(d, pos + 1);
    }
  }

  // ----- one field

  lemma {:induction false} VarintLength(n: nat, k: nat)
    requires n < Shl(1, 7 * k) && k >= 1
    ensures |EncodeVarint(n, 0)| <= k
    decreases k
  {
    ShlSeven(1, 7 * (k - 1));
    ShlConst(7 * (k - 1));
    if k == 1 {
      assert Shl(1, 0) == 1;
    } else if n >= 128 {
      VarintLength(n / 128, k - 1);
    }
  }

  lemma ShlThirtyFive()
    ensures Shl(1, 35) == 34359738368
  {
    ShlSeven(1, 28);
    ShlSeven(128, 21);
    ShlSeven(16384, 14);
    ShlSeven(2097152, 7);
    ShlSeven(268435456, 0);
  }

  /** A tag in shortest form always fits: it is below 2^32, so it takes at most five bytes. */
  lemma ShortestTagFits(f: WireField)
    requires 1 <= f.number <= MAX_FIELD_NUMBER && f.tagPad == 0
    ensures |f.TagBytes()| <= 5
  {
    ShlThirtyFive();
    VarintLength(f.number * 8 + f.WireType(), 5);
  }

  lemma ScanTag(d: seq<Byte>, pos: nat, n: nat, q: nat, number: nat, wireType: nat)
    requires 1 <= number <= MAX_FIELD_NUMBER && wireType < 8 && n == number * 8 + wireType
    requires pos < q <= |d| && ReadTag(d, pos, 0, 0) == Some(Read(n, q))
    ensures Scan(d, pos) == [Field(number, wireType)] + ScanRest(d, ValueEnd(d, q, wireType), q)
  {
    assert n / 8 == number && n % 8 == wireType;
  }

  lemma ReadFieldTag(d: seq<Byte>, pos: nat, f: WireField)
    requires f.Valid() && At(d, pos, f.TagBytes())
    ensures var q := pos + |f.TagBytes()|;
            Scan(d, pos) == [f.Tag()] + ScanRest(d, ValueEnd(d, q, f.WireType()), q)
  {
    var n, q := f.number * 8 + f.WireType(), pos + |f.TagBytes()|;
    TagReadBack(d, pos, n, f.tagPad, q);
    ScanTag(d, pos, n, q, f.number, f.WireType());
  }

  lemma TagReadBack(d: seq<Byte>, pos: nat, n: nat, pad: nat, q: nat)
    requires |EncodeVarint(n, pad)| <= 5 && At(d, pos, EncodeVarint(n, pad)) && q == pos + |EncodeVarint(n, pad)|
    ensures pos < q <= |d| && ReadTag(d, pos, 0, 0) == Some(Read(n, q))
  {
    ReadTagBack(d, pos, n, pad, 0, 0);
  }

  lemma MissTag(d: seq<Byte>, pos: nat, f: WireField)
    requires f.Valid() && pos <= |d| && |d| - pos < |f.TagBytes()| && d[pos..] <= f.TagBytes()
    ensures Scan(d, pos) == []
  {
    CutInsideVarint(d, pos, f.TagBytes());
    CutTag(d, pos, 0, 0);
  }

  lemma ReadValue(d: seq<Byte>, q: nat, f: WireField)
    requires f.Valid() && At(d, q, f.ValueBytes())
    ensures ValueEnd(d, q, f.WireType()) == Some(q + |f.ValueBytes()|)
  {
    match f.value
    case Varint(n, pad) => VarintEndBack(d, q, n, pad);
    case Fixed64(_) =>
    case Fixed32(_) =>
    case Bytes(p, pad) =>
      var l := EncodeVarint(|p|, pad);
      assert At(d, q, l) by {
        assert d[q..q + |l|] == d[q..q + |l + p|][..|l|];
      }
      ReadLengthBack(d, q, |p|, pad, 0, 0);
  }

  /** A value cut off by the probe limit ends the scan. */
  lemma MissValue(d: seq<Byte>, q: nat, f: WireField)
    requires f.Valid() && q <= |d| && |d| - q < |f.ValueBytes()| && d[q..] <= f.ValueBytes()
    ensures ScanRest(d, ValueEnd(d, q, f.WireType()), q) == []
  {
    match f.value
    case Varint(n, pad) =>
      CutInsideVarint(d, q, EncodeVarint(n, pad));
      CutVarint(d, q);
    case Fixed64(_) =>
    case Fixed32(_) =>
    case Bytes(p, pad) =>
      var l := EncodeVarint(|p|, pad);
      if |d| - q < |l| {
        assert d[q..] <= l;
        CutInsideVarint(d, q, l);
        CutLength(d, q, 0, 0);
      } else {
        assert At(d, q, l) by {
          assert d[q..q + |l|] == d[q..][..|l|] == (l + p)[..|l|];
        }
        ReadLengthBack(d, q, |p|, pad, 0, 0);
      }
  }

  // ----- whole messages

  ghost predicate AllValid(fs: seq<WireField>) {
    forall i :: 0 <= i < |fs| ==> fs[i].Valid()
  }

  /** How many fields have their whole tag within the first room bytes. */
  function Fit(fs: seq<WireField>, room: nat): (k: nat)
    ensures k <= |fs|
  {
    if fs == [] || |fs[0].TagBytes()| > room then 0
    else 1 + if |fs[0].Encoded()| > room then 0 else Fit(fs[1..], room - |fs[0].Encoded()|)
  }

  lemma FitStep(fs: seq<WireField>, room: nat)
    requires fs != []
    ensures var t, e := |fs[0].TagBytes()|, |fs[0].TagBytes()| + |fs[0].ValueBytes()|;
            Fit(fs, room) == if t > room then 0 else if e > room then 1 else 1 + Fit(fs[1..], room - e)
  {
  }

  lemma TagsTake(fs: seq<WireField>, k: nat)
    requires fs != [] && k < |fs|
    ensures Tags(fs)[..k + 1] == [fs[0].Tag()] + Tags(fs[1..])[..k]
  {
  }

  lemma TagsThatFit(fs: seq<WireField>, room: nat)
    requires fs != [] && |fs[0].TagBytes()| <= room
    ensures var e := |fs[0].TagBytes()| + |fs[0].ValueBytes()|;
            Tags(fs)[..Fit(fs, room)]
            == [fs[0].Tag()] + if e > room then [] else Tags(fs[1..])[..Fit(fs[1..], room - e)]
  {
    FitStep(fs, room);
    TagsTake(fs, Fit(fs, room) - 1);
  }

  lemma {:induction false} EncodeFirst(fs: seq<WireField>, i: nat)
    requires 1 <= i <= |fs|
    ensures Encode(fs[..i]) == fs[0].Encoded() + Encode(fs[1..][..i - 1])
  {
    assert fs[..i][1..] == fs[1..][..i - 1];
  }

  lemma FirstLength(fs: seq<WireField>, i: nat, e: nat)
    requires 1 <= i <= |fs| && e == |fs[0].TagBytes()| + |fs[0].ValueBytes()|
    ensures |Encode(fs[..i])| == e + |Encode(fs[1..][..i - 1])|
  {
    EncodeFirst(fs, i);
  }

  /** Field i is among the first Fit fields exactly when its tag ends within room bytes of the message. */
  lemma {:induction false} FitMeaning(fs: seq<WireField>, room: nat, i: nat)
    requires i < |fs|
    ensures i < Fit(fs, room) <==> |Encode(fs[..i])| + |fs[i].TagBytes()| <= room
    decreases i
  {
    FitStep(fs, room);
    if i == 0 {
      assert fs[..0] == [];
    } else {
      var e := |fs[0].TagBytes()| + |fs[0].ValueBytes()|;
      FirstLength(fs, i, e);
      if e <= room {
        FitMeaning(fs[1..], room - e, i - 1);
      }
    }
  }

  lemma {:induction false} FitAll(fs: seq<WireField>)
    ensures Fit(fs, |Encode(fs)|) == |fs|
  {
    if fs != [] {
      FitAll(fs[1..]);
    }
  }

  lemma SplitTail(d: seq<Byte>, pos: nat, a: seq<Byte>, b: seq<Byte>)
    requires pos <= |d| && d[pos..] <= a + b
    ensures |d| - pos <= |a| ==> d[pos..] <= a
    ensures |d| - pos >= |a| ==> At(d, pos, a) && d[pos + |a|..] <= b
  {
    var t := d[pos..];
    if |t| >= |a| {
      assert d[pos..pos + |a|] == t[..|a|] == (a + b)[..|a|] == a;
      assert d[pos + |a|..] == t[|a|..] == (a + b)[|a|..|t|] == b[..|t| - |a|];
    }
  }

  /** A complete field contributes its tag and hands over to the bytes after it. */
  lemma ScanWholeField(d: seq<Byte>, pos: nat, f: WireField, q: nat, e: nat)
    requires f.Valid() && q == pos + |f.TagBytes()| && e == q + |f.ValueBytes()|
    requires At(d, pos, f.TagBytes()) && At(d, q, f.ValueBytes())
    ensures Scan(d, pos) == [f.Tag()] + Scan(d, e)
  {
    ReadFieldTag(d, pos, f);
    ReadValue(d, q, f);
  }

  /** A field whose value is cut off contributes its tag and ends the scan. */
  lemma ScanCutField(d: seq<Byte>, pos: nat, f: WireField, q: nat)
    requires f.Valid() && q == pos + |f.TagBytes()| <= |d| && At(d, pos, f.TagBytes())
    requires |d| - q < |f.ValueBytes()| && d[q..] <= f.ValueBytes()
    ensures Scan(d, pos) == [f.Tag()]
  {
    MissValue(d, q, f);
    var rest := ScanRest(d, ValueEnd(d, q, f.WireType()), q);
    assert Scan(d, pos) == [f.Tag()] + rest by {
      ReadFieldTag(d, pos, f);
    }
    assert [f.Tag()] + [] == [f.Tag()];
  }

  lemma EncodeParts(fs: seq<WireField>)
    requires fs != []
    ensures Encode(fs) == fs[0].TagBytes() + (fs[0].ValueBytes() + Encode(fs[1..]))
  {
  }

  /** Bytes that start with a whole tag: the scan yields it, and goes on after the value if that is whole too. */
  lemma ScanFromTag(d: seq<Byte>, pos: nat, f: WireField, q: nat, e: nat, tail: seq<Byte>)
    requires f.Valid() && q == pos + |f.TagBytes()| <= |d| && e == q + |f.ValueBytes()|
    requires At(d, pos, f.TagBytes()) && d[q..] <= f.ValueBytes() + tail
    ensures |d| < e ==> Scan(d, pos) == [f.Tag()]
    ensures e <= |d| ==> d[e..] <= tail && Scan(d, pos) == [f.Tag()] + Scan(d, e)
  {
    SplitTail(d, q, f.ValueBytes(), tail);
    if |d| < e {
      ScanCutField(d, pos, f, q);
    } else {
      ScanWholeField(d, pos, f, q, e);
    }
  }

  /** On any prefix of an encoded message the scan returns the tags that fit. */
  lemma {:induction false} ScanEncoded(d: seq<Byte>, pos: nat, fs: seq<WireField>)
    requires AllValid(fs) && pos <= |d| && d[pos..] <= Encode(fs)
    ensures Scan(d, pos) == Tags(fs)[..Fit(fs, |d| - pos)]
    decreases |fs|
  {
    if fs != [] {
      var f, rest := fs[0], fs[1..];
      var q := pos + |f.TagBytes()|;
      var e := q + |f.ValueBytes()|;
      EncodeParts(fs);
      SplitTail(d, pos, f.TagBytes(), f.ValueBytes() + Encode(rest));
      if |d| < q {
        FitStep(fs, |d| - pos);
        MissTag(d, pos, f);
      } else {
        TagsThatFit(fs, |d| - pos);
        ScanFromTag(d, pos, f, q, e, Encode(rest));
        if e <= |d| {
          ScanEncoded(d, e, rest);
        }
      }
    }
  }

  lemma FirstTagFits(fs: seq<WireField>)
    requires fs != [] && AllValid(fs)
    ensures |Encode(fs)| >= 2 && Fit(fs, Min(|Encode(fs)|, PROBE_LIMIT)) >= 1
  {
    EncodeParts(fs);
    FitStep(fs, Min(|Encode(fs)|, PROBE_LIMIT));
    assert |fs[0].TagBytes()| >= 1 && |fs[0].ValueBytes()| >= 1;
  }

  /** A nonempty valid message is recognised; up to the limit all its tags are counted, beyond it those that fit. */
  lemma ProbeInvertsEncode(fs: seq<WireField>)
    requires fs != [] && AllValid(fs)
    ensures var k := Fit(fs, Min(|Encode(fs)|, 4096));
            && k >= 1 && (|Encode(fs)| <= 4096 ==> k == |fs|)
            && Result(Encode(fs)) == Some(Probed(k, Tags(fs)[..Min(k, 64)]))
  {
    var data := Encode(fs);
    var d := data[..Min(|data|, PROBE_LIMIT)];
    FirstTagFits(fs);
    var k := Fit(fs, |d|);
    assert |data| <= PROBE_LIMIT ==> k == |fs| by { FitAll(fs); }
    assert Scan(d, 0) == Tags(fs)[..k] by {
      assert d[0..] == d;
      ScanEncoded(d, 0, fs);
    }
    ResultOfTags(data, Tags(fs), k);
  }

  lemma ResultOfTags(data: seq<Byte>, tags: seq<Field>, k: nat)
    requires |data| >= 2 && 1 <= k <= |tags| && Scan(data[..Min(|data|, PROBE_LIMIT)], 0) == tags[..k]
    ensures Result(data) == Some(Probed(k, tags[..Min(k, 64)]))
  {
    assert tags[..k][..Min(k, 64)] == tags[..Min(k, 64)];
  }

  // ----- messages followed by something else

  lemma EncodeThen(fs: seq<WireField>, tail: seq<Byte>)
    requires fs != []
    ensures Encode(fs) + tail == fs[0].TagBytes() + (fs[0].ValueBytes() + (Encode(fs[1..]) + tail))
    ensures |Encode(fs)| == |fs[0].TagBytes()| + |fs[0].ValueBytes()| + |Encode(fs[1..])|
  {
    EncodeParts(fs);
    var a, b, c := fs[0].TagBytes(), fs[0].ValueBytes(), Encode(fs[1..]);
    Assoc(a, b, c, tail);
  }

  lemma Assoc(a: seq<Byte>, b: seq<Byte>, c: seq<Byte>, d: seq<Byte>)
    ensures (a + (b + c)) + d == a + (b + (c + d))
  {
  }

  lemma TagsThen(fs: seq<WireField>, more: seq<Field>)
    requires fs != []
    ensures [fs[0].Tag()] + (Tags(fs[1..]) + more) == Tags(fs) + more
  {
  }

  /** A whole field at the head of what is left. */
  lemma ScanFirst(d: seq<Byte>, pos: nat, f: WireField, e: nat, rest: seq<Byte>)
    requires f.Valid() && pos <= |d| && d[pos..] == f.TagBytes() + (f.ValueBytes() + rest)
    requires e == pos + |f.TagBytes()| + |f.ValueBytes()|
    ensures e <= |d| && d[e..] == rest && Scan(d, pos) == [f.Tag()] + Scan(d, e)
  {
    AfterParts(d, pos, f.TagBytes(), f.ValueBytes(), rest);
    ScanWholeField(d, pos, f, pos + |f.TagBytes()|, e);
  }

  /** After whole fields the scan goes on with whatever follows them. */
  lemma {:induction false} ScanOn(d: seq<Byte>, pos: nat, fs: seq<WireField>, tail: seq<Byte>, end: nat)
    requires AllValid(fs) && pos <= |d| && d[pos..] == Encode(fs) + tail && end == pos + |Encode(fs)|
    ensures end <= |d| && d[end..] == tail && Scan(d, pos) == Tags(fs) + Scan(d, end)
    decreases |fs|
  {
    if fs == [] {
      assert Encode(fs) + tail == tail && Tags(fs) + Scan(d, end) == Scan(d, end);
    } else {
      var e := pos + |fs[0].TagBytes()| + |fs[0].ValueBytes()|;
      EncodeThen(fs, tail);
      ScanFirst(d, pos, fs[0], e, Encode(fs[1..]) + tail);
      ScanOn(d, e, fs[1..], tail, end);
      TagsThen(fs, Scan(d, end));
    }
  }

  lemma AfterParts(d: seq<Byte>, pos: nat, t: seq<Byte>, v: seq<Byte>, rest: seq<Byte>)
    requires pos <= |d| && d[pos..] == t + (v + rest)
    ensures pos + |t| + |v| <= |d| && At(d, pos, t) && At(d, pos + |t|, v) && d[pos + |t| + |v|..] == rest
  {
    var s, q := d[pos..], pos + |t|;
    assert d[pos..q] == s[..|t|] == t;
    assert d[q..] == s[|t|..] == v + rest;
    assert d[q..q + |v|] == d[q..][..|v|] == v;
    assert d[q + |v|..] == d[q..][|v|..] == rest;
  }

  /** A tag with field number 0 or beyond 2^29 - 1 ends the scan; an unknown wire type is listed and ends it. */
  lemma ScanBadTag(d: seq<Byte>, pos: nat, n: nat, pad: nat)
    requires |EncodeVarint(n, pad)| <= 5 && At(d, pos, EncodeVarint(n, pad))
    ensures n / 8 == 0 || n / 8 > 0x1FFF_FFFF ==> Scan(d, pos) == []
    ensures 1 <= n / 8 <= 0x1FFF_FFFF && n % 8 in {3, 4, 6, 7} ==> Scan(d, pos) == [Field(n / 8, n % 8)]
  {
    var q := pos + |EncodeVarint(n, pad)|;
    TagReadBack(d, pos, n, pad, q);
    ScanRound(d, pos, true, n, q);
  }

  /** A message within the limit that is followed by a bad tag and any bytes: the fields before it are recovered. */
  lemma DamagedMessage(fs: seq<WireField>, n: nat, pad: nat, junk: seq<Byte>)
    requires AllValid(fs) && |EncodeVarint(n, pad)| <= 5
    ensures var d := Encode(fs) + (EncodeVarint(n, pad) + junk);
            && (n / 8 == 0 || n / 8 > 0x1FFF_FFFF ==> Scan(d, 0) == Tags(fs))
            && (1 <= n / 8 <= 0x1FFF_FFFF && n % 8 in {3, 4, 6, 7} ==>
                  Scan(d, 0) == Tags(fs) + [Field(n / 8, n % 8)])
  {
    var t := EncodeVarint(n, pad);
    var d := Encode(fs) + (t + junk);
    assert d[0..] == d;
    ScanOn(d, 0, fs, t + junk, |Encode(fs)|);
    SplitTail(d, |Encode(fs)|, t, junk);
    ScanBadTag(d, |Encode(fs)|, n, pad);
  }

  /** A tag ends with its fifth byte, whose continuation bit is ignored. */
  lemma {:induction false} FifthByteEndsTag(d: seq<Byte>, pos: nat, c: seq<Byte>, j: nat, acc: nat)
    requires pos + 5 <= |d| && j <= 4 && acc < Shl(1, 7 * j) && forall i :: pos <= i < pos + 5 ==> d[i] >= 128
    requires c == d[pos + 4 := d[pos + 4] - 128]
    ensures ReadTag(d, pos + j, acc, 7 * j) == ReadTag(c, pos + j, acc, 7 * j)
    ensures var r := ReadTag(d, pos + j, acc, 7 * j); r.Some? && r.value.pos == pos + 5
    decreases 4 - j
  {
    if j < 4 {
      assert c[pos + j] == d[pos + j];
      FifthByteEndsTag(d, pos, c, j + 1, OrShifted(acc, d[pos + j], 7 * j));
    }
  }

  /** Fewer than two bytes, or bytes without a first field, are not taken for a message. */
  lemma NotAMessage(data: seq<Byte>)
    ensures |data| < 2 ==> Result(data) == None
    ensures 2 <= |data| <= 4096 ==> (Result(data) == None <==> Scan(data, 0) == [])
  {
    assert data[..|data|] == data;
  }

  // ----- arbitrary bytes

  ghost predicate Plausible(fields: seq<Field>) {
    && (forall i :: 0 <= i < |fields| ==> 1 <= fields[i].number <= MAX_FIELD_NUMBER && fields[i].wireType < 8)
    && (forall i :: 0 <= i < |fields| - 1 ==> fields[i].wireType in {0, 1, 2, 5})
  }

  /** Whatever the bytes, reported numbers are in range, and only the last field can have an unknown wire type. */
  lemma {:induction false} ScanIsPlausible(d: seq<Byte>, pos: nat)
    requires pos <= |d|
    ensures |Scan(d, pos)| <= |d| - pos && Plausible(Scan(d, pos))
    decreases |d| - pos
  {
    if pos < |d| && ReadTag(d, pos, 0, 0).Some? {
      var tag := ReadTag(d, pos, 0, 0).value;
      var end := ValueEnd(d, tag.pos, tag.value % 8);
      if end.Some? && end.value <= |d| {
        ScanIsPlausible(d, end.value);
      }
      var rest := ScanRest(d, end, tag.pos);
      assert |rest| <= |d| - tag.pos && Plausible(rest) && (end.None? ==> rest == []);
      PlausibleCons(Field(tag.value / 8, tag.value % 8), rest);
    }
  }

  lemma PlausibleCons(f: Field, rest: seq<Field>)
    requires Plausible(rest) && f.wireType < 8 && (rest != [] ==> f.wireType in {0, 1, 2, 5})
    ensures 1 <= f.number <= MAX_FIELD_NUMBER ==> Plausible([f] + rest)
  {
  }
}
