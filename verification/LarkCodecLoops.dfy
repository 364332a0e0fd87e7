/**
 The encoder and decoder loops of the Lark codec: a buffer that is pushed to, and a position that
 advances over a slice. Each is proved against the byte-level specification.
 */
module LarkCodecLoops {
  import opened Bits
  import opened LarkCodec
  import opened Varint
  import opened Wrappers

  // ----- encoding -----

  const FIELD_NUMBERS := 0x2000_0000_0000_0000

  /** A tag has room for 61 bits of a field number. */
  function FieldNumber(field: u64): nat {
    if field < FIELD_NUMBERS then field else field % FIELD_NUMBERS
  }

  lemma ScaledMod(a: nat, m: nat)
    requires m > 0
    ensures a % m < m && (a < m ==> a % m == a) && a * 8 % (m * 8) == a % m * 8
  {
    var q, r := a / m, a % m;
    ModUnique(a * 8, m * 8, q, r * 8);
    if a < m {
      ModUnique(a, m, 0, a);
    }
  }

  lemma ShiftedField(field: u64)
    ensures FieldNumber(field) < FIELD_NUMBERS && Shl(field, 3) == FieldNumber(field) * 8
  {
    assert Pow2(3) == 8;
    ScaledMod(field, FIELD_NUMBERS);
  }

  lemma TagBits(field: u64, wireType: nat)
    requires wireType < 8
    ensures BitOr(Shl(field, 3), wireType) == Tag(FieldNumber(field), wireType) < U64
  {
    assert Pow2(3) == 8;
    var kept := FieldNumber(field);
    ShiftedField(field);
    OrIsSum(wireType, kept, 3);
    OrCommutes(kept * 8, wireType);
  }

  method EncodeTag(field: u64, wireType: nat, buffer: seq<byte>) returns (out: seq<byte>)
    requires wireType < 8
    ensures out == buffer + VarintBytes(Tag(FieldNumber(field), wireType))
  {
    TagBits(field, wireType);
    out := EncodeVarint(BitOr(Shl(field, 3), wireType), buffer);
  }

  /** Pushing parts one after the other appends their concatenation. */
  lemma Pushed(a: seq<byte>, b: seq<byte>, c: seq<byte>, d: seq<byte>)
    ensures a + b + c == a + (b + c)
    ensures a + b + c + d == a + (b + c + d)
  {
  }

  /** Push a varint field to a buffer that holds the fields `fs`. */
  method EncodeVarintField(field: u64, value: u64, buffer: seq<byte>, ghost fs: seq<Field>) returns (out: seq<byte>)
    requires buffer == FieldsBytes(fs)
    ensures out == FieldsBytes(fs + [VarintField(FieldNumber(field), value)])
  {
    out := EncodeTag(field, 0, buffer);
    out := EncodeVarint(value, out);
    var kept := FieldNumber(field);
    Pushed(buffer, VarintBytes(Tag(kept, 0)), VarintBytes(value), []);
    FieldsBytesPush(fs, VarintField(kept, value));
  }

  /** Push a length-delimited field to a buffer that holds the fields `fs`. */
  method EncodeLenDelimited(field: u64, bytes: seq<byte>, buffer: seq<byte>, ghost fs: seq<Field>)
    returns (out: seq<byte>)
    requires |bytes| <= MAX_LEN && buffer == FieldsBytes(fs)
    ensures out == FieldsBytes(fs + [LenField(FieldNumber(field), bytes)])
  {
    out := EncodeTag(field, 2, buffer);
    out := EncodeVarint(|bytes|, out);
    out := out + bytes;
    var kept := FieldNumber(field);
    Pushed(buffer, VarintBytes(Tag(kept, 2)), VarintBytes(|bytes|), bytes);
    FieldsBytesPush(fs, LenField(kept, bytes));
  }

  method EncodeHeader(h: Header) returns (inner: seq<byte>)
    requires |HeaderBytes(h)| <= MAX_LEN
    ensures inner == HeaderBytes(h)
  {
    HeaderLengths(h);
    ghost var key, value := LenField(1, h.key), LenField(2, h.value);
    inner := EncodeLenDelimited(1, h.key, [], []);
    assert [] + [key] == [key] && [key] + [value] == HeaderFields(h);
    inner := EncodeLenDelimited(2, h.value, inner, [key]);
  }

  /** The header loop of the encoder. */
  method EncodeHeaders(headers: seq<Header>, buffer: seq<byte>, ghost fs: seq<Field>) returns (out: seq<byte>)
    requires buffer == FieldsBytes(fs) && SmallHeaders(headers)
    ensures out == FieldsBytes(fs + HeadersFields(headers))
  {
    out := buffer;
    assert fs + HeadersFields(headers[..0]) == fs;
    for i := 0 to |headers|
      invariant out == FieldsBytes(fs + HeadersFields(headers[..i]))
    {
      assert SmallHeader(headers[i]);
      var inner := EncodeHeader(headers[i]);
      out := EncodeLenDelimited(5, inner, out, fs + HeadersFields(headers[..i]));
      HeadersPush(headers, i, fs);
    }
    assert headers[..|headers|] == headers;
  }

  lemma HeadersPush(headers: seq<Header>, i: nat, fs: seq<Field>)
    requires i < |headers|
    ensures fs + HeadersFields(headers[..i]) + [LenField(5, HeaderBytes(headers[i]))] == fs + HeadersFields(headers[..i + 1])
  {
    assert headers[..i + 1][..i] == headers[..i];
  }

  method EncodeFrame(frame: Frame) returns (out: seq<byte>)
    requires |FrameBytes(frame)| <= MAX_LEN
    ensures out == FrameBytes(frame)
  {
    FieldsAreWritable(frame);
    out := EncodeScalars(frame);
    ghost var scalars, headers := FieldsOf(frame)[..4], HeadersFields(frame.headers);
    out := EncodeHeaders(frame.headers, out, scalars);
    out := EncodePayload(frame, out, scalars + headers);
    PartsOfFrame(frame);
  }

  lemma PartsOfFrame(frame: Frame)
    ensures FieldsOf(frame) ==
            FieldsOf(frame)[..4] + HeadersFields(frame.headers) + [LenField(6, frame.payloadEncoding)]
            + [LenField(7, frame.payloadType)] + [LenField(8, frame.payload)]
  {
  }

  method EncodeScalars(frame: Frame) returns (out: seq<byte>)
    ensures out == FieldsBytes(FieldsOf(frame)[..4])
  {
    ghost var all := FieldsOf(frame);
    out := EncodeVarintField(1, frame.seqid, [], []);
    assert [] + [all[0]] == all[..1];
    out := EncodeVarintField(2, frame.logid, out, all[..1]);
    assert all[..1] + [all[1]] == all[..2];
    out := EncodeVarintField(3, SignExtend(frame.service), out, all[..2]);
    assert all[..2] + [all[2]] == all[..3];
    out := EncodeVarintField(4, SignExtend(frame.method_), out, all[..3]);
    assert all[..3] + [all[3]] == all[..4];
  }

  method EncodePayload(frame: Frame, buffer: seq<byte>, ghost fs: seq<Field>) returns (out: seq<byte>)
    requires |frame.payloadEncoding| <= MAX_LEN && |frame.payloadType| <= MAX_LEN && |frame.payload| <= MAX_LEN
    requires buffer == FieldsBytes(fs)
    ensures out == FieldsBytes(fs + [LenField(6, frame.payloadEncoding)] + [LenField(7, frame.payloadType)]
                               + [LenField(8, frame.payload)])
  {
    out := EncodeLenDelimited(6, frame.payloadEncoding, buffer, fs);
    ghost var fs6 := fs + [LenField(6, frame.payloadEncoding)];
    out := EncodeLenDelimited(7, frame.payloadType, out, fs6);
    out := EncodeLenDelimited(8, frame.payload, out, fs6 + [LenField(7, frame.payloadType)]);
  }

  // ----- decoding -----

  method DecodeLenDelimited(data: seq<byte>, start: nat) returns (slice: Option<seq<byte>>, pos: nat)
    requires start <= |data| <= MAX_LEN
    ensures slice.Some? <==> ReadLen(data[start..]).Some?
    ensures start <= pos <= |data|
    ensures slice.Some? ==> start < pos && ReadLen(data[start..]) == Some((slice.value, data[pos..]))
  {
    var len;
    len, pos := DecodeVarint(data, start);
    if len.None? {
      return None, pos;
    }
    // An end position that overflows a 64-bit word is out of range, like any other past the end.
    if pos + len.value >= U64 || pos + len.value > |data| {
      return None, pos;
    }
    slice := Some(data[pos..pos + len.value]);
    assert data[pos..][..len.value] == slice.value && data[pos..][len.value..] == data[pos + len.value..];
    pos := pos + len.value;
  }

  /** `tag >> 3` and `tag & 7`. */
  method SplitTag(tag: u64) returns (num: nat, wireType: nat)
    ensures num == tag / 8 && wireType == tag % 8
  {
    ShrIsDiv(tag, 3);
    MaskIsMod(tag, 3);
    num, wireType := Shr(tag, 3), BitAnd(tag, 7);
  }

  /** Read the tag and the contents of the field at `start`. */
  method DecodeField(data: seq<byte>, start: nat) returns (field: Option<Field>, pos: nat)
    requires start < |data| <= MAX_LEN
    ensures field.Some? <==> ReadField(data[start..]).Some?
    ensures start <= pos <= |data|
    ensures field.Some? ==> start < pos && ReadField(data[start..]) == Some((field.value, data[pos..]))
  {
    var tag;
    tag, pos := DecodeVarint(data, start);
    if tag.None? {
      return None, pos;
    }
    var num, wireType := SplitTag(tag.value);
    if wireType == 0 {
      var value;
      value, pos := DecodeVarint(data, pos);
      return if value.None? then None else Some(VarintField(num, value.value)), pos;
    } else if wireType == 2 {
      var slice;
      slice, pos := DecodeLenDelimited(data, pos);
      return if slice.None? then None else Some(LenField(num, slice.value)), pos;
    }
    return None, pos;
  }

  method DecodeHeaderLoop(data: seq<byte>) returns (result: Option<Header>)
    requires |data| <= MAX_LEN
    ensures result == DecodeHeader(data)
  {
    var pos := 0;
    var header := Header([], []);
    assert data[0..] == data;
    while pos < |data|
      invariant 0 <= pos <= |data|
      invariant DecodeHeader(data) == DecodeHeaderFrom(header, data[pos..])
    {
      var field;
      field, pos := DecodeField(data, pos);
      if field.None? {
        return None;
      }
      match field.value {
        case LenField(1, bytes) =>
          if !ValidUtf8(bytes) {
            return None;
          }
          header := header.(key := bytes);
        case LenField(2, bytes) =>
          if !ValidUtf8(bytes) {
            return None;
          }
          header := header.(value := bytes);
        case _ =>
      }
    }
    assert data[pos..] == [];
    return Some(header);
  }

  method ApplyField(frame: Frame, field: Field) returns (result: Option<Frame>)
    requires field.LenField? ==> |field.bytes| <= MAX_LEN
    ensures result == Apply(frame, field)
  {
    match field {
      case VarintField(1, value) => result := Some(frame.(seqid := value));
      case VarintField(2, value) => result := Some(frame.(logid := value));
      case VarintField(3, value) => result := Some(frame.(service := Truncate(value)));
      case VarintField(4, value) => result := Some(frame.(method_ := Truncate(value)));
      case LenField(5, bytes) =>
        var header := DecodeHeaderLoop(bytes);
        result := if header.None? then None else Some(frame.(headers := frame.headers + [header.value]));
      case LenField(6, bytes) => result := if ValidUtf8(bytes) then Some(frame.(payloadEncoding := bytes)) else None;
      case LenField(7, bytes) => result := if ValidUtf8(bytes) then Some(frame.(payloadType := bytes)) else None;
      case LenField(8, bytes) => result := Some(frame.(payload := bytes));
      case _ => result := Some(frame);
    }
  }

  /** The decoder: total on every byte sequence that fits into memory, and strictly advancing. */
  method DecodeFrameLoop(data: seq<byte>) returns (result: Option<Frame>)
    requires |data| <= MAX_LEN
    ensures result == DecodeFrame(data)
  {
    var pos := 0;
    var frame := EMPTY_FRAME;
    assert data[0..] == data;
    while pos < |data|
      invariant 0 <= pos <= |data|
      invariant DecodeFrame(data) == DecodeFrom(frame, data[pos..])
    {
      var field, before := None, pos;
      field, pos := DecodeField(data, pos);
      if field.None? {
        return None;
      }
      FieldFits(data[before..]);
      var next := ApplyField(frame, field.value);
      if next.None? {
        return None;
      }
      frame := next.value;
    }
    assert data[pos..] == [];
    return Some(frame);
  }

  lemma FieldFits(data: seq<byte>)
    requires ReadField(data).Some?
    ensures ReadField(data).value.0.LenField? ==> |ReadField(data).value.0.bytes| <= |data|
  {
    ReadVarintBound(data);
    var (tag, rest) := ReadVarint(data).value;
    ReadVarintBound(rest);
  }
}
