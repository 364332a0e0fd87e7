/**
 The hand-written codec for `pbbp2.Frame`, the wire message of the Lark long connection: what
 bytes a frame is written as, and what the decoder makes of any bytes at all.
 */
module LarkCodec {
  import opened Bits
  import opened Varint
  import opened Wrappers

  type i32 = v: int | -0x8000_0000 <= v < 0x8000_0000

  /** The longest buffer a Rust vector can hold. */
  const MAX_LEN := 0x7fff_ffff_ffff_ffff

  predicate Continuation(s: seq<byte>, i: nat, lo: byte, hi: byte) {
    i < |s| && lo <= s[i] <= hi
  }

  /** Well-formed UTF-8 (RFC 3629, section 4). */
  predicate ValidUtf8(s: seq<byte>) {
    if s == [] then true
    else
      var b := s[0];
      if b < 0x80 then ValidUtf8(s[1..])
      else if 0xc2 <= b <= 0xdf then Continuation(s, 1, 0x80, 0xbf) && ValidUtf8(s[2..])
      else if 0xe0 <= b <= 0xef then
        && Continuation(s, 1, if b == 0xe0 then 0xa0 else 0x80, if b == 0xed then 0x9f else 0xbf)
        && Continuation(s, 2, 0x80, 0xbf) && ValidUtf8(s[3..])
      else
        && 0xf0 <= b <= 0xf4
        && Continuation(s, 1, if b == 0xf0 then 0x90 else 0x80, if b == 0xf4 then 0x8f else 0xbf)
        && Continuation(s, 2, 0x80, 0xbf) && Continuation(s, 3, 0x80, 0xbf) && ValidUtf8(s[4..])
  }

  /** A Rust string, by its bytes. */
  type Text = s: seq<byte> | ValidUtf8(s) witness []

  datatype Header = Header(key: Text, value: Text)

  datatype Frame = Frame(
    seqid: u64,
    logid: u64,
    service: i32,
    method_: i32,
    headers: seq<Header>,
    payloadEncoding: Text,
    payloadType: Text,
    payload: seq<byte>)

  const EMPTY_FRAME := Frame(0, 0, 0, 0, [], [], [], [])

  // ----- numbers -----

  /** `v as i64 as u64`. */
  function SignExtend(v: i32): u64 {
    if v < 0 then v + U64 else v
  }

  /** `v as i64 as i32`. */
  function Truncate(v: u64): i32 {
    var low := v % 0x1_0000_0000;
    if low < 0x8000_0000 then low else low - 0x1_0000_0000
  }

  lemma SignExtendTruncate(v: i32)
    ensures Truncate(SignExtend(v)) == v
  {
  }

  /** Truncation keeps the low 32 bits, as a number between -2^31 and 2^31. */
  lemma TruncateKeepsLowBits(v: u64)
    ensures (v - Truncate(v)) % 0x1_0000_0000 == 0
  {
  }

  // ----- wire fields -----

  /** One field as it lies on the wire. */
  datatype Field = VarintField(num: nat, value: u64) | LenField(num: nat, bytes: seq<byte>)

  function Tag(num: nat, wireType: nat): nat {
    8 * num + wireType
  }

  function FieldBytes(f: Field): seq<byte> {
    match f
    case VarintField(num, value) => VarintBytes(Tag(num, 0)) + VarintBytes(value)
    case LenField(num, bytes) => VarintBytes(Tag(num, 2)) + VarintBytes(|bytes|) + bytes
  }

  /** The field can be written: its tag and its length are 64-bit words. */
  predicate Writable(f: Field) {
    f.num < U64 / 8 && (f.LenField? ==> |f.bytes| < U64)
  }

  function ReadLen(data: seq<byte>): Option<(seq<byte>, seq<byte>)> {
    match ReadVarint(data)
    case None => None
    case Some((len, rest)) => if len > |rest| then None else Some((rest[..len], rest[len..]))
  }

  /** The first field of the bytes and what follows it; fails on a wire type other than 0 and 2. */
  function ReadField(data: seq<byte>): Option<(Field, seq<byte>)> {
    match ReadVarint(data)
    case None => None
    case Some((tag, rest)) =>
      if tag % 8 == 0 then
        match ReadVarint(rest)
        case None => None
        case Some((value, rest')) =>
          ReadVarintBound(rest);
          Some((VarintField(tag / 8, value), rest'))
      else if tag % 8 == 2 then
        match ReadLen(rest)
        case None => None
        case Some((bytes, rest')) => Some((LenField(tag / 8, bytes), rest'))
      else None
  }

  /** Reading strictly advances. */
  lemma ReadFieldAdvances(data: seq<byte>)
    requires ReadField(data).Some?
    ensures |ReadField(data).value.1| < |data|
  {
    ReadVarintBound(data);
    var (tag, rest) := ReadVarint(data).value;
    ReadVarintBound(rest);
  }

  lemma ReadFieldOfBytes(f: Field, t: seq<byte>)
    requires Writable(f)
    ensures ReadField(FieldBytes(f) + t) == Some((f, t))
  {
    var wire := if f.VarintField? then 0 else 2;
    var tag := Tag(f.num, wire);
    match f {
      case VarintField(num, value) =>
        assert FieldBytes(f) + t == VarintBytes(tag) + (VarintBytes(value) + t);
        VarintRoundTrip(tag, VarintBytes(value) + t);
        VarintRoundTrip(value, t);
      case LenField(num, bytes) =>
        assert FieldBytes(f) + t == VarintBytes(tag) + (VarintBytes(|bytes|) + (bytes + t));
        VarintRoundTrip(tag, VarintBytes(|bytes|) + (bytes + t));
        VarintRoundTrip(|bytes|, bytes + t);
        assert (bytes + t)[..|bytes|] == bytes && (bytes + t)[|bytes|..] == t;
    }
  }

  lemma ReadFieldExtend(data: seq<byte>, t: seq<byte>)
    requires ReadField(data).Some?
    ensures ReadField(data + t) == Some((ReadField(data).value.0, ReadField(data).value.1 + t))
  {
    var (tag, rest) := ReadVarint(data).value;
    DigitsExtend(data, 0, t);
    DigitsExtend(rest, 0, t);
    if tag % 8 == 2 {
      var (len, body) := ReadVarint(rest).value;
      assert (body + t)[..len] == body[..len] && (body + t)[len..] == body[len..] + t;
    }
  }

  /** Fields pushed into a buffer one after the other. */
  function FieldsBytes(fs: seq<Field>): seq<byte> {
    if fs == [] then [] else FieldsBytes(fs[..|fs| - 1]) + FieldBytes(fs[|fs| - 1])
  }

  lemma FieldsBytesPush(fs: seq<Field>, f: Field)
    ensures FieldsBytes(fs + [f]) == FieldsBytes(fs) + FieldBytes(f)
  {
  }

  // ----- headers -----

  function ApplyToHeader(h: Header, f: Field): Option<Header> {
    match f
    case VarintField(_, _) => Some(h)
    case LenField(num, bytes) =>
      if num == 1 then if ValidUtf8(bytes) then Some(h.(key := bytes)) else None
      else if num == 2 then if ValidUtf8(bytes) then Some(h.(value := bytes)) else None
      else Some(h)
  }

  function DecodeHeaderFrom(h: Header, data: seq<byte>): Option<Header>
    decreases |data|
  {
    if data == [] then Some(h)
    else match ReadField(data)
      case None => None
      case Some((f, rest)) =>
        ReadFieldAdvances(data);
        match ApplyToHeader(h, f)
        case None => None
        case Some(h') => DecodeHeaderFrom(h', rest)
  }

  function DecodeHeader(data: seq<byte>): Option<Header> {
    DecodeHeaderFrom(Header([], []), data)
  }

  function HeaderFields(h: Header): seq<Field> {
    [LenField(1, h.key), LenField(2, h.value)]
  }

  function HeaderBytes(h: Header): seq<byte> {
    FieldsBytes(HeaderFields(h))
  }

  lemma DecodeHeaderFieldThen(h: Header, f: Field, t: seq<byte>)
    requires Writable(f) && ApplyToHeader(h, f).Some?
    ensures DecodeHeaderFrom(h, FieldBytes(f) + t) == DecodeHeaderFrom(ApplyToHeader(h, f).value, t)
  {
    ReadFieldOfBytes(f, t);
  }

  lemma HeaderRoundTrip(h: Header)
    requires |h.key| < U64 && |h.value| < U64
    ensures DecodeHeader(HeaderBytes(h)) == Some(h)
  {
    var key, value := LenField(1, h.key), LenField(2, h.value);
    TwoFields(key, value);
    DecodeHeaderFieldThen(Header([], []), key, FieldBytes(value));
    DecodeHeaderFieldThen(Header(h.key, []), value, []);
    assert FieldBytes(value) + [] == FieldBytes(value);
  }

  lemma TwoFields(f: Field, f': Field)
    ensures FieldsBytes([f, f']) == FieldBytes(f) + FieldBytes(f')
  {
    FieldsBytesPush([], f);
    FieldsBytesPush([f], f');
    assert [] + [f] == [f] && [f] + [f'] == [f, f'];
    assert [] + FieldBytes(f) == FieldBytes(f);
  }

  // ----- frames -----

  /** What the decoder does with one field; unknown fields leave the frame as it is. */
  function Apply(frame: Frame, f: Field): Option<Frame> {
    match f
    case VarintField(num, value) =>
      if num == 1 then Some(frame.(seqid := value))
      else if num == 2 then Some(frame.(logid := value))
      else if num == 3 then Some(frame.(service := Truncate(value)))
      else if num == 4 then Some(frame.(method_ := Truncate(value)))
      else Some(frame)
    case LenField(num, bytes) =>
      if num == 5 then
        match DecodeHeader(bytes)
        case None => None
        case Some(h) => Some(frame.(headers := frame.headers + [h]))
      else if num == 6 then if ValidUtf8(bytes) then Some(frame.(payloadEncoding := bytes)) else None
      else if num == 7 then if ValidUtf8(bytes) then Some(frame.(payloadType := bytes)) else None
      else if num == 8 then Some(frame.(payload := bytes))
      else Some(frame)
  }

  /** Decode the bytes on top of a frame. */
  function DecodeFrom(frame: Frame, data: seq<byte>): Option<Frame>
    decreases |data|
  {
    if data == [] then Some(frame)
    else match ReadField(data)
      case None => None
      case Some((f, rest)) =>
        ReadFieldAdvances(data);
        match Apply(frame, f)
        case None => None
        case Some(frame') => DecodeFrom(frame', rest)
  }

  function DecodeFrame(data: seq<byte>): Option<Frame> {
    DecodeFrom(EMPTY_FRAME, data)
  }

  function HeadersFields(headers: seq<Header>): (fs: seq<Field>)
    ensures |fs| == |headers|
  {
    if headers == [] then []
    else HeadersFields(headers[..|headers| - 1]) + [LenField(5, HeaderBytes(headers[|headers| - 1]))]
  }

  ghost predicate SmallHeader(h: Header) {
    |HeaderBytes(h)| <= MAX_LEN
  }

  ghost predicate SmallHeaders(headers: seq<Header>) {
    forall i :: 0 <= i < |headers| ==> SmallHeader(headers[i])
  }

  /** The fields a frame is written as, in order. An `int32` is sign-extended to 64 bits. */
  function FieldsOf(frame: Frame): seq<Field> {
    [VarintField(1, frame.seqid), VarintField(2, frame.logid),
     VarintField(3, SignExtend(frame.service)), VarintField(4, SignExtend(frame.method_))]
    + HeadersFields(frame.headers)
    + [LenField(6, frame.payloadEncoding), LenField(7, frame.payloadType), LenField(8, frame.payload)]
  }

  function FrameBytes(frame: Frame): seq<byte> {
    FieldsBytes(FieldsOf(frame))
  }

  // ----- composition -----

  /** Decoding `a` and then `b` is decoding `b` on top of what `a` gave. */
  lemma {:induction false} DecodeComposes(frame: Frame, a: seq<byte>, b: seq<byte>)
    requires DecodeFrom(frame, a).Some?
    ensures DecodeFrom(frame, a + b) == DecodeFrom(DecodeFrom(frame, a).value, b)
    decreases |a|
  {
    if a == [] {
      assert a + b == b;
    } else {
      ReadFieldExtend(a, b);
      ReadFieldAdvances(a);
      var (f, rest) := ReadField(a).value;
      DecodeComposes(Apply(frame, f).value, rest, b);
    }
  }

  /** A field the decoder has no use for: an unknown number, or a known one with the other wire type. */
  predicate Ignored(f: Field) {
    match f
    case VarintField(num, _) => num == 0 || num > 4
    case LenField(num, _) => num < 5 || num > 8
  }

  lemma DecodeField(frame: Frame, f: Field)
    requires Writable(f)
    ensures DecodeFrom(frame, FieldBytes(f)) == Apply(frame, f)
  {
    ReadFieldOfBytes(f, []);
    assert FieldBytes(f) + [] == FieldBytes(f);
  }

  /** The bytes hold exactly one field, in whatever encoding, and the decoder has no use for it. */
  predicate IsIgnoredField(x: seq<byte>) {
    ReadField(x).Some? && ReadField(x).value.1 == [] && Ignored(ReadField(x).value.0)
  }

  /** An ignored field at any field boundary leaves the result unchanged, also when its tag, value or
      length is not encoded in the fewest bytes. */
  lemma IgnoredFieldChangesNothing(a: seq<byte>, x: seq<byte>, b: seq<byte>)
    requires DecodeFrame(a).Some? && IsIgnoredField(x)
    ensures DecodeFrame(a + x + b) == DecodeFrame(a + b)
  {
    var frame := DecodeFrame(a).value;
    ReadFieldAdvances(x);
    assert DecodeFrom(frame, x) == DecodeFrom(frame, []);
    DecodeComposes(EMPTY_FRAME, a, x);
    DecodeComposes(EMPTY_FRAME, a + x, b);
    DecodeComposes(EMPTY_FRAME, a, b);
  }

  // ----- last one wins -----

  /** All fields of the bytes, if they are well formed. */
  function Parse(data: seq<byte>): Option<seq<Field>>
    decreases |data|
  {
    if data == [] then Some([])
    else match ReadField(data)
      case None => None
      case Some((f, rest)) =>
        ReadFieldAdvances(data);
        match Parse(rest)
        case None => None
        case Some(fs) => Some([f] + fs)
  }

  /** The decoder can use the field's contents. */
  predicate Accepts(f: Field) {
    f.LenField? ==>
      && (f.num == 5 ==> DecodeHeader(f.bytes).Some?)
      && (f.num == 6 || f.num == 7 ==> ValidUtf8(f.bytes))
  }

  /** The value of the last varint field with that number. */
  function LastVarint(fs: seq<Field>, num: nat): Option<u64> {
    if fs == [] then None
    else
      var f := fs[|fs| - 1];
      if f.VarintField? && f.num == num then Some(f.value) else LastVarint(fs[..|fs| - 1], num)
  }

  /** The contents of the last length-delimited field with that number. */
  function LastLen(fs: seq<Field>, num: nat): Option<seq<byte>> {
    if fs == [] then None
    else
      var f := fs[|fs| - 1];
      if f.LenField? && f.num == num then Some(f.bytes) else LastLen(fs[..|fs| - 1], num)
  }

  /** The headers of all header fields, in order. */
  function HeadersIn(fs: seq<Field>): seq<Header> {
    if fs == [] then []
    else
      var f := fs[|fs| - 1];
      HeadersIn(fs[..|fs| - 1])
      + if f.LenField? && f.num == 5 && DecodeHeader(f.bytes).Some? then [DecodeHeader(f.bytes).value] else []
  }

  function ApplyAll(frame: Frame, fs: seq<Field>): Option<Frame> {
    if fs == [] then Some(frame)
    else match ApplyAll(frame, fs[..|fs| - 1])
      case None => None
      case Some(g) => Apply(g, fs[|fs| - 1])
  }

  lemma {:induction false} ApplyAllCons(frame: Frame, f: Field, fs: seq<Field>)
    ensures ApplyAll(frame, [f] + fs) ==
            match Apply(frame, f) case None => None case Some(g) => ApplyAll(g, fs)
  {
    var all := [f] + fs;
    if fs == [] {
      assert all[..0] == [] && all[0] == f;
      assert ApplyAll(frame, all[..0]) == Some(frame);
    } else {
      assert all[..|all| - 1] == [f] + fs[..|fs| - 1];
      ApplyAllCons(frame, f, fs[..|fs| - 1]);
    }
  }

  lemma {:induction false} DecodeAppliesFields(frame: Frame, data: seq<byte>)
    ensures DecodeFrom(frame, data) == match Parse(data) case None => None case Some(fs) => ApplyAll(frame, fs)
    decreases |data|
  {
    if data != [] && ReadField(data).Some? {
      ReadFieldAdvances(data);
      var (f, rest) := ReadField(data).value;
      if Parse(rest).Some? {
        ApplyAllCons(frame, f, Parse(rest).value);
      }
      if Apply(frame, f).Some? {
        DecodeAppliesFields(Apply(frame, f).value, rest);
      }
    }
  }

  /** The frame that the fields say: each scalar from its last field, the headers from all of theirs. */
  ghost predicate SaysFrame(fs: seq<Field>, base: Frame, frame: Frame) {
    && frame.seqid == LastVarint(fs, 1).GetOr(base.seqid)
    && frame.logid == LastVarint(fs, 2).GetOr(base.logid)
    && (frame.service == if LastVarint(fs, 3).Some? then Truncate(LastVarint(fs, 3).value) else base.service)
    && (frame.method_ == if LastVarint(fs, 4).Some? then Truncate(LastVarint(fs, 4).value) else base.method_)
    && frame.headers == base.headers + HeadersIn(fs)
    && frame.payloadEncoding == LastLen(fs, 6).GetOr(base.payloadEncoding)
    && frame.payloadType == LastLen(fs, 7).GetOr(base.payloadType)
    && frame.payload == LastLen(fs, 8).GetOr(base.payload)
  }

  lemma LastOfMore(init: seq<Field>, f: Field, num: nat)
    ensures LastVarint(init + [f], num) == if f.VarintField? && f.num == num then Some(f.value) else LastVarint(init, num)
    ensures LastLen(init + [f], num) == if f.LenField? && f.num == num then Some(f.bytes) else LastLen(init, num)
  {
    var fs := init + [f];
    assert fs[..|fs| - 1] == init && fs[|fs| - 1] == f;
  }

  lemma HeadersOfMore(init: seq<Field>, f: Field)
    ensures HeadersIn(init + [f]) ==
            HeadersIn(init) + if f.LenField? && f.num == 5 && DecodeHeader(f.bytes).Some? then [DecodeHeader(f.bytes).value] else []
  {
    var fs := init + [f];
    assert fs[..|fs| - 1] == init && fs[|fs| - 1] == f;
  }

  /** One more field says one more thing. */
  lemma OneMoreSays(init: seq<Field>, f: Field, base: Frame, frame: Frame)
    requires SaysFrame(init, base, frame) && Apply(frame, f).Some?
    ensures SaysFrame(init + [f], base, Apply(frame, f).value)
  {
    var headers, more := HeadersIn(init), HeadersIn(init + [f]);
    HeadersOfMore(init, f);
    if f.LenField? && f.num == 5 {
      assert base.headers + more == base.headers + headers + [DecodeHeader(f.bytes).value];
    } else {
      assert more == headers;
    }
    LastOfMore(init, f, 1);
    LastOfMore(init, f, 2);
    LastOfMore(init, f, 3);
    LastOfMore(init, f, 4);
    LastOfMore(init, f, 6);
    LastOfMore(init, f, 7);
    LastOfMore(init, f, 8);
  }

  lemma {:induction false} ApplyAllSays(base: Frame, fs: seq<Field>)
    ensures ApplyAll(base, fs).Some? <==> forall f :: f in fs ==> Accepts(f)
    ensures ApplyAll(base, fs).Some? ==> SaysFrame(fs, base, ApplyAll(base, fs).value)
  {
    if fs != [] {
      var init, f := fs[..|fs| - 1], fs[|fs| - 1];
      ApplyAllSays(base, init);
      assert fs == init + [f];
      if ApplyAll(base, init).Some? {
        if Accepts(f) {
          OneMoreSays(init, f, base, ApplyAll(base, init).value);
        }
      }
    } else {
      assert base.headers + [] == base.headers;
    }
  }

  function ApplyAllToHeader(h: Header, fs: seq<Field>): Option<Header>
    decreases |fs|
  {
    if fs == [] then Some(h)
    else match ApplyToHeader(h, fs[0])
      case None => None
      case Some(h') => ApplyAllToHeader(h', fs[1..])
  }

  lemma {:induction false} HeaderAppliesFields(h: Header, data: seq<byte>)
    ensures DecodeHeaderFrom(h, data) == match Parse(data) case None => None case Some(fs) => ApplyAllToHeader(h, fs)
    decreases |data|
  {
    if data != [] && ReadField(data).Some? {
      ReadFieldAdvances(data);
      var (f, rest) := ReadField(data).value;
      if ApplyToHeader(h, f).Some? {
        HeaderAppliesFields(ApplyToHeader(h, f).value, rest);
      }
      if Parse(rest).Some? {
        assert ([f] + Parse(rest).value)[1..] == Parse(rest).value;
      }
    }
  }

  /** A header field that is no text. */
  predicate BadText(f: Field) {
    f.LenField? && (f.num == 1 || f.num == 2) && !ValidUtf8(f.bytes)
  }

  lemma {:induction false} HeaderFieldsSay(h: Header, fs: seq<Field>)
    ensures ApplyAllToHeader(h, fs).Some? <==> forall f :: f in fs ==> !BadText(f)
    ensures ApplyAllToHeader(h, fs).Some? ==>
              && ApplyAllToHeader(h, fs).value.key == LastLen(fs, 1).GetOr(h.key)
              && ApplyAllToHeader(h, fs).value.value == LastLen(fs, 2).GetOr(h.value)
    decreases |fs|
  {
    if fs != [] {
      var f, rest := fs[0], fs[1..];
      assert fs == [f] + rest && f in fs;
      assert ApplyToHeader(h, f).None? <==> BadText(f);
      LastLenCons(f, rest, 1);
      LastLenCons(f, rest, 2);
      if ApplyToHeader(h, f).Some? {
        HeaderFieldsSay(ApplyToHeader(h, f).value, rest);
      }
    }
  }

  lemma {:induction false} LastLenCons(f: Field, rest: seq<Field>, num: nat)
    ensures LastLen([f] + rest, num) ==
            if LastLen(rest, num).Some? then LastLen(rest, num)
            else if f.LenField? && f.num == num then Some(f.bytes) else None
  {
    var fs := [f] + rest;
    if rest != [] {
      assert fs[..|fs| - 1] == [f] + rest[..|rest| - 1];
      LastLenCons(f, rest[..|rest| - 1], num);
    }
  }

  /** A header against the wire format: the last field 1 is its key and the last field 2 its value, both
      text; other fields make no difference. */
  lemma HeaderSays(data: seq<byte>)
    ensures DecodeHeader(data).Some? <==>
            Parse(data).Some? && forall f :: f in Parse(data).value && f.LenField? && (f.num == 1 || f.num == 2) ==> ValidUtf8(f.bytes)
    ensures DecodeHeader(data).Some? ==>
              && DecodeHeader(data).value.key == LastLen(Parse(data).value, 1).GetOr([])
              && DecodeHeader(data).value.value == LastLen(Parse(data).value, 2).GetOr([])
  {
    HeaderAppliesFields(Header([], []), data);
    if Parse(data).Some? {
      HeaderFieldsSay(Header([], []), Parse(data).value);
      assert forall f: Field :: BadText(f) <==> f.LenField? && (f.num == 1 || f.num == 2) && !ValidUtf8(f.bytes);
    }
  }

  /** The examples of the Protocol Buffers Encoding guide: field 1 with the number 150, and field 2 with the
      text `testing`. */
  lemma GuideExamples()
    ensures VarintBytes(150) == [0x96, 0x01]
    ensures FieldBytes(VarintField(1, 150)) == [0x08, 0x96, 0x01]
    ensures FieldBytes(LenField(2, [0x74, 0x65, 0x73, 0x74, 0x69, 0x6e, 0x67])) ==
            [0x12, 0x07, 0x74, 0x65, 0x73, 0x74, 0x69, 0x6e, 0x67]
  {
    assert VarintBytes(150) == [150 % 128 + 128] + VarintBytes(1);
  }

  /** The decoder against the wire format: it succeeds exactly on well-formed fields it can use, and
      then the last field of each scalar wins and all headers are kept in order. */
  lemma LastOneWins(data: seq<byte>)
    ensures DecodeFrame(data).Some? <==> Parse(data).Some? && forall f :: f in Parse(data).value ==> Accepts(f)
    ensures DecodeFrame(data).Some? ==>
              SaysFrame(Parse(data).value, Frame(0, 0, 0, 0, [], [], [], []), DecodeFrame(data).value)
  {
    DecodeAppliesFields(EMPTY_FRAME, data);
    if Parse(data).Some? {
      ApplyAllSays(EMPTY_FRAME, Parse(data).value);
    }
  }

  // ----- round trip -----

  /** Written fields decode to what applying them gives. */
  lemma {:induction false} FieldsDecode(frame: Frame, fs: seq<Field>)
    requires ApplyAll(frame, fs).Some? && AllWritable(fs)
    ensures DecodeFrom(frame, FieldsBytes(fs)) == ApplyAll(frame, fs)
  {
    if fs != [] {
      var init, f := fs[..|fs| - 1], fs[|fs| - 1];
      FieldsDecode(frame, init);
      DecodeField(ApplyAll(frame, init).value, f);
      DecodeComposes(frame, FieldsBytes(init), FieldBytes(f));
    }
  }

  lemma {:induction false} ApplyAllConcat(frame: Frame, fs: seq<Field>, gs: seq<Field>)
    requires ApplyAll(frame, fs).Some?
    ensures ApplyAll(frame, fs + gs) == ApplyAll(ApplyAll(frame, fs).value, gs)
  {
    var all := fs + gs;
    if gs == [] {
      assert all == fs;
    } else {
      assert all[..|all| - 1] == fs + gs[..|gs| - 1];
      ApplyAllConcat(frame, fs, gs[..|gs| - 1]);
    }
  }

  lemma ApplyScalars(base: Frame, frame: Frame)
    ensures ApplyAll(base, FieldsOf(frame)[..4]) ==
            Some(base.(seqid := frame.seqid, logid := frame.logid, service := frame.service, method_ := frame.method_))
  {
    var one, two := VarintField(1, frame.seqid), VarintField(2, frame.logid);
    var three, four := VarintField(3, SignExtend(frame.service)), VarintField(4, SignExtend(frame.method_));
    SignExtendTruncate(frame.service);
    SignExtendTruncate(frame.method_);
    var f1 := base.(seqid := frame.seqid);
    var f2 := f1.(logid := frame.logid);
    var f3 := f2.(service := frame.service);
    ApplyAllCons(base, one, [two, three, four]);
    ApplyAllCons(f1, two, [three, four]);
    ApplyAllCons(f2, three, [four]);
    ApplyAllCons(f3, four, []);
    assert [one] + [two, three, four] == FieldsOf(frame)[..4];
    assert [two] + [three, four] == [two, three, four] && [three] + [four] == [three, four] && [four] + [] == [four];
  }

  lemma ApplyHeader(base: Frame, h: Header)
    requires SmallHeader(h)
    ensures Apply(base, LenField(5, HeaderBytes(h))) == Some(base.(headers := base.headers + [h]))
  {
    HeaderLengths(h);
    HeaderRoundTrip(h);
  }

  /** Applying the field appends the header. */
  ghost predicate Adds(f: Field, h: Header) {
    forall base: Frame :: Apply(base, f) == Some(WithHeaders(base, [h]))
  }

  function WithHeaders(base: Frame, headers: seq<Header>): Frame {
    base.(headers := base.headers + headers)
  }

  lemma WithHeadersJoins(base: Frame, headers: seq<Header>)
    ensures headers == [] ==> WithHeaders(base, headers) == base
    ensures headers != [] ==>
              WithHeaders(WithHeaders(base, headers[..|headers| - 1]), [headers[|headers| - 1]]) == WithHeaders(base, headers)
  {
  }

  lemma {:induction false} ApplyHeaderFields(base: Frame, headers: seq<Header>, fs: seq<Field>)
    requires |fs| == |headers| && forall i :: 0 <= i < |fs| ==> Adds(fs[i], headers[i])
    ensures ApplyAll(base, fs) == Some(WithHeaders(base, headers))
  {
    WithHeadersJoins(base, headers);
    if fs != [] {
      var n := |fs| - 1;
      ApplyHeaderFields(base, headers[..n], fs[..n]);
      assert Adds(fs[n], headers[n]);
    }
  }

  lemma HeaderFieldAdds(h: Header)
    requires SmallHeader(h)
    ensures Adds(LenField(5, HeaderBytes(h)), h)
  {
    forall base: Frame ensures Apply(base, LenField(5, HeaderBytes(h))) == Some(WithHeaders(base, [h])) {
      ApplyHeader(base, h);
    }
  }

  lemma ApplyHeaders(base: Frame, headers: seq<Header>)
    requires SmallHeaders(headers)
    ensures ApplyAll(base, HeadersFields(headers)) == Some(WithHeaders(base, headers))
  {
    var fs := HeadersFields(headers);
    forall i | 0 <= i < |fs| ensures Adds(fs[i], headers[i]) {
      assert SmallHeader(headers[i]);
      HeaderFieldAt(headers, i);
      HeaderFieldAdds(headers[i]);
    }
    ApplyHeaderFields(base, headers, fs);
  }

  lemma HeaderLengths(h: Header)
    ensures |h.key| <= |HeaderBytes(h)| && |h.value| <= |HeaderBytes(h)|
  {
    TwoFields(LenField(1, h.key), LenField(2, h.value));
  }

  lemma ApplyPayload(base: Frame, frame: Frame)
    ensures var fs := [LenField(6, frame.payloadEncoding), LenField(7, frame.payloadType), LenField(8, frame.payload)];
            ApplyAll(base, fs) ==
            Some(base.(payloadEncoding := frame.payloadEncoding, payloadType := frame.payloadType, payload := frame.payload))
  {
    var six, seven, eight := LenField(6, frame.payloadEncoding), LenField(7, frame.payloadType), LenField(8, frame.payload);
    var f6 := base.(payloadEncoding := frame.payloadEncoding);
    var f7 := f6.(payloadType := frame.payloadType);
    ApplyAllCons(base, six, [seven, eight]);
    ApplyAllCons(f6, seven, [eight]);
    ApplyAllCons(f7, eight, []);
    assert [six] + [seven, eight] == [six, seven, eight] && [seven] + [eight] == [seven, eight] && [eight] + [] == [eight];
  }

  lemma {:induction false} EachFieldFits(fs: seq<Field>, f: Field)
    requires f in fs && f.LenField?
    ensures |f.bytes| <= |FieldsBytes(fs)|
  {
    var init, last := fs[..|fs| - 1], fs[|fs| - 1];
    if f != last {
      assert f in init;
      EachFieldFits(init, f);
    }
  }

  lemma {:induction false} HeaderFieldAt(headers: seq<Header>, i: nat)
    requires i < |headers|
    ensures HeadersFields(headers)[i] == LenField(5, HeaderBytes(headers[i]))
  {
    if i < |headers| - 1 {
      HeaderFieldAt(headers[..|headers| - 1], i);
    }
  }

  lemma HeadersAreSmall(frame: Frame)
    requires |FrameBytes(frame)| <= MAX_LEN
    ensures SmallHeaders(frame.headers)
  {
    forall i | 0 <= i < |frame.headers| ensures SmallHeader(frame.headers[i]) {
      HeaderIsSmall(frame, i);
    }
  }

  lemma HeaderIsSmall(frame: Frame, i: nat)
    requires |FrameBytes(frame)| <= MAX_LEN && i < |frame.headers|
    ensures SmallHeader(frame.headers[i])
  {
    var all, field := FieldsOf(frame), LenField(5, HeaderBytes(frame.headers[i]));
    HeaderFieldAt(frame.headers, i);
    assert all[4 + i] == field;
    EachFieldFits(all, field);
  }

  ghost predicate AllWritable(fs: seq<Field>) {
    forall f :: f in fs ==> Writable(f)
  }

  lemma FieldsAreWritable(frame: Frame)
    requires |FrameBytes(frame)| <= MAX_LEN
    ensures AllWritable(FieldsOf(frame)) && SmallHeaders(frame.headers)
    ensures |frame.payloadEncoding| <= MAX_LEN && |frame.payloadType| <= MAX_LEN && |frame.payload| <= MAX_LEN
  {
    var all := FieldsOf(frame);
    forall f | f in all ensures Writable(f) && (f.LenField? ==> |f.bytes| <= MAX_LEN) {
      if f.LenField? {
        EachFieldFits(all, f);
      }
      FieldNumbers(frame, f);
    }
    var n := |all|;
    assert all[n - 3] in all && all[n - 2] in all && all[n - 1] in all;
    HeadersAreSmall(frame);
  }

  lemma {:induction false} HeaderFieldNumbers(headers: seq<Header>, f: Field)
    requires f in HeadersFields(headers)
    ensures f.num == 5
  {
    if f in HeadersFields(headers[..|headers| - 1]) {
      HeaderFieldNumbers(headers[..|headers| - 1], f);
    }
  }

  lemma FieldNumbers(frame: Frame, f: Field)
    requires f in FieldsOf(frame)
    ensures 1 <= f.num <= 8
  {
    if f in HeadersFields(frame.headers) {
      HeaderFieldNumbers(frame.headers, f);
    }
  }

  lemma ApplyFieldsOf(frame: Frame)
    requires SmallHeaders(frame.headers)
    ensures ApplyAll(EMPTY_FRAME, FieldsOf(frame)) == Some(frame)
  {
    var all, scalars := FieldsOf(frame), FieldsOf(frame)[..4];
    var headers := HeadersFields(frame.headers);
    var payload := [LenField(6, frame.payloadEncoding), LenField(7, frame.payloadType), LenField(8, frame.payload)];
    assert all == scalars + headers + payload;
    ApplyScalars(EMPTY_FRAME, frame);
    var base := ApplyAll(EMPTY_FRAME, scalars).value;
    ApplyHeaders(base, frame.headers);
    assert [] + frame.headers == frame.headers;
    ApplyAllConcat(EMPTY_FRAME, scalars, headers);
    ApplyPayload(ApplyAll(EMPTY_FRAME, scalars + headers).value, frame);
    ApplyAllConcat(EMPTY_FRAME, scalars + headers, payload);
  }

  /** Every frame whose encoding fits into memory decodes to itself. */
  lemma FrameRoundTrip(frame: Frame)
    requires |FrameBytes(frame)| <= MAX_LEN
    ensures DecodeFrame(FrameBytes(frame)) == Some(frame)
  {
    FieldsAreWritable(frame);
    ApplyFieldsOf(frame);
    FieldsDecode(EMPTY_FRAME, FieldsOf(frame));
  }
}
