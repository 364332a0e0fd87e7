/**
 Base 128 varints (Protocol Buffers Encoding guide, "Base 128 Varints") as the Lark channel
 writes and reads them: at most ten bytes, the tenth contributing a single bit.
 */
module Varint {
  import opened Bits
  import opened Wrappers

  type byte = b: int | 0 <= b < 256

  type u64 = v: int | 0 <= v < U64

  /** The weight of the `k`-th group of seven bits. */
  function Weight(k: nat): nat {
    if k == 0 then 1 else 128 * Weight(k - 1)
  }

  /** The value as little-endian base-128 digits, all but the last with the continuation bit. */
  function VarintBytes(v: nat): seq<byte> {
    if v < 128 then [v] else [v % 128 + 128] + VarintBytes(v / 128)
  }

  /** What the digit in `b` adds at position `k`; at the last position only its lowest bit fits. */
  function Contribution(b: byte, k: nat): nat {
    (if k <= 8 then b % 128 else b % 2) * Weight(k)
  }

  /** Sum the digits from position `k` on, up to and including the first byte without continuation bit. */
  function Digits(data: seq<byte>, k: nat): Option<(nat, seq<byte>)> {
    if data == [] then None
    else if data[0] < 128 then Some((Contribution(data[0], k), data[1..]))
    else if k >= 9 then None
    else match Digits(data[1..], k + 1)
      case None => None
      case Some((v, rest)) => Some((Contribution(data[0], k) + v, rest))
  }

  /** Read one varint: its value and the bytes after it. */
  function ReadVarint(data: seq<byte>): Option<(nat, seq<byte>)> {
    Digits(data, 0)
  }

  /** The value read so far joined with what the remaining digits give. */
  function Joined(result: nat, more: Option<(nat, seq<byte>)>): Option<(nat, seq<byte>)> {
    match more
    case None => None
    case Some((v, rest)) => Some((result + v, rest))
  }

  // ----- arithmetic -----

  lemma WeightTable()
    ensures Weight(0) == 1 && Weight(1) == 0x80 && Weight(2) == 0x4000 && Weight(3) == 0x20_0000
    ensures Weight(4) == 0x1000_0000 && Weight(5) == 0x8_0000_0000 && Weight(6) == 0x400_0000_0000
    ensures Weight(7) == 0x2_0000_0000_0000 && Weight(8) == 0x100_0000_0000_0000
    ensures Weight(9) == 0x8000_0000_0000_0000 && 2 * Weight(9) == U64 && Weight(10) > U64
  {
  }

  lemma WeightBound(k: nat)
    requires k <= 8
    ensures 256 * Weight(k) <= U64
  {
    WeightTable();
  }

  lemma {:induction false} WeightIsPow2(k: nat)
    ensures Weight(k) == Pow2(7 * k)
  {
    if k > 0 {
      WeightIsPow2(k - 1);
      Pow2Add(7 * (k - 1), 7);
      Pow2Values();
    }
  }

  lemma Scale(d: nat, n: nat, w: nat)
    requires d <= n
    ensures d * w <= n * w
  {
  }

  lemma ContributionBound(b: byte, k: nat)
    ensures k <= 8 ==> Contribution(b, k) <= 127 * Weight(k)
    ensures k > 8 ==> Contribution(b, k) <= Weight(k)
  {
    if k <= 8 {
      Scale(b % 128, 127, Weight(k));
    } else {
      Scale(b % 2, 1, Weight(k));
    }
  }

  /** The shifted digit of a 64-bit word is the contribution: only the top position loses bits. */
  lemma ShiftedDigit(b: byte, k: nat)
    requires k <= 9
    ensures Shl(b % 128, 7 * k) == Contribution(b, k)
  {
    WeightIsPow2(k);
    if k <= 8 {
      ContributionBound(b, k);
      WeightBound(k);
    } else {
      WeightTable();
      assert b % 128 % 2 == b % 2;
    }
  }

  /** The digits from position `k` on sum to less than 2^64, with room for the lower positions. */
  lemma {:induction false} DigitsBound(data: seq<byte>, k: nat)
    requires k <= 9 && Digits(data, k).Some?
    ensures Digits(data, k).value.0 <= U64 - Weight(k)
    ensures |Digits(data, k).value.1| < |data|
  {
    ContributionBound(data[0], k);
    if k == 9 {
      WeightTable();
    } else {
      WeightBound(k);
    }
    if data[0] >= 128 {
      DigitsBound(data[1..], k + 1);
    }
  }

  lemma ReadVarintBound(data: seq<byte>)
    requires ReadVarint(data).Some?
    ensures ReadVarint(data).value.0 < U64
    ensures |ReadVarint(data).value.1| < |data|
  {
    DigitsBound(data, 0);
  }

  // ----- round trip -----

  lemma LastDigit(v: nat, k: nat)
    requires k <= 9 && v * Weight(k) < U64
    ensures k == 9 ==> v < 2
  {
  }

  lemma SplitDigit(v: nat, w: nat)
    ensures v * w == v % 128 * w + v / 128 * (128 * w)
  {
  }

  /** The first byte of a varint and the value of the rest make up the value. */
  lemma DigitValue(v: nat, k: nat)
    requires k <= 9 && v * Weight(k) < U64
    ensures v < 128 ==> Contribution(v, k) == v * Weight(k)
    ensures v >= 128 ==> k < 9 && v / 128 * Weight(k + 1) < U64
    ensures v >= 128 ==> Contribution(v % 128 + 128, k) + v / 128 * Weight(k + 1) == v * Weight(k)
  {
    LastDigit(v, k);
    SplitDigit(v, Weight(k));
  }

  lemma DigitsHead(b: byte, rest: seq<byte>, k: nat)
    ensures Digits([b] + rest, k) ==
            if b < 128 then Some((Contribution(b, k), rest))
            else if k >= 9 then None
            else Joined(Contribution(b, k), Digits(rest, k + 1))
  {
  }

  lemma {:induction false} DigitsOfVarint(v: nat, k: nat, t: seq<byte>)
    requires k <= 9 && v * Weight(k) < U64
    ensures Digits(VarintBytes(v) + t, k) == Some((v * Weight(k), t))
  {
    DigitValue(v, k);
    if v < 128 {
      DigitsHead(v, t, k);
    } else {
      assert VarintBytes(v) + t == [v % 128 + 128] + (VarintBytes(v / 128) + t);
      DigitsHead(v % 128 + 128, VarintBytes(v / 128) + t, k);
      DigitsOfVarint(v / 128, k + 1, t);
    }
  }

  /** Reading what was written gives the value back, whatever bytes follow. */
  lemma VarintRoundTrip(v: u64, t: seq<byte>)
    ensures ReadVarint(VarintBytes(v) + t) == Some((v, t))
  {
    assert Weight(0) == 1 && v * 1 == v;
    DigitsOfVarint(v, 0, t);
  }

  /** No varint is a proper prefix of another. */
  lemma PrefixFree(v: u64, w: u64, t: seq<byte>)
    requires VarintBytes(v) + t == VarintBytes(w)
    ensures v == w && t == []
  {
    VarintRoundTrip(v, t);
    VarintRoundTrip(w, []);
    assert VarintBytes(w) + [] == VarintBytes(w);
  }

  /** A varint has at most `n` bytes exactly when the value has at most `n` base-128 digits. */
  lemma {:induction false} VarintLength(v: nat, n: nat)
    requires n >= 1
    ensures |VarintBytes(v)| >= 1
    ensures |VarintBytes(v)| <= n <==> v < Weight(n)
  {
    if v >= 128 {
      VarintLength(v / 128, if n >= 2 then n - 1 else 1);
      if n >= 2 {
        assert v < 128 * Weight(n - 1) <==> v / 128 < Weight(n - 1);
      } else {
        assert Weight(1) == 128;
      }
    } else {
      WeightAtLeast(n);
    }
  }

  lemma {:induction false} WeightAtLeast(n: nat)
    requires n >= 1
    ensures Weight(n) >= 128
  {
    if n > 1 {
      WeightAtLeast(n - 1);
    } else {
      assert Weight(1) == 128 * Weight(0);
    }
  }

  lemma TenBytesSuffice(v: u64)
    ensures 1 <= |VarintBytes(v)| <= 10
  {
    WeightTable();
    VarintLength(v, 10);
  }

  lemma {:induction false} DigitsConsumed(data: seq<byte>, k: nat)
    requires k <= 9 && Digits(data, k).Some?
    ensures var n := |data| - |Digits(data, k).value.1|;
            && 1 <= n <= 10 - k
            && (n < 10 - k ==> Digits(data, k).value.0 <= Weight(k + n) - Weight(k))
  {
    ContributionBound(data[0], k);
    assert Weight(k + 1) == 128 * Weight(k);
    if data[0] >= 128 {
      DigitsConsumed(data[1..], k + 1);
    }
  }

  /** Whatever reads as `v` has at least as many bytes as `VarintBytes(v)`: the encoding is minimal. */
  lemma VarintIsMinimal(data: seq<byte>)
    requires ReadVarint(data).Some?
    ensures var (v, rest) := ReadVarint(data).value; |VarintBytes(v)| <= |data| - |rest| <= 10
  {
    var (v, rest) := ReadVarint(data).value;
    DigitsConsumed(data, 0);
    ReadVarintBound(data);
    var n := |data| - |rest|;
    if n < 10 {
      VarintLength(v, n);
    } else {
      TenBytesSuffice(v);
    }
  }

  /** More bytes after a varint that reads do not change what is read. */
  lemma {:induction false} DigitsExtend(data: seq<byte>, k: nat, t: seq<byte>)
    requires Digits(data, k).Some?
    ensures Digits(data + t, k) == Some((Digits(data, k).value.0, Digits(data, k).value.1 + t))
  {
    assert (data + t)[0] == data[0] && (data + t)[1..] == data[1..] + t;
    if data[0] >= 128 {
      DigitsExtend(data[1..], k + 1, t);
    }
  }

  // ----- the loops -----

  lemma EncodeStep(value: nat)
    ensures BitAnd(value, 0x7f) == value % 128 && Shr(value, 7) == value / 128
    ensures BitOr(value % 128, 0x80) == value % 128 + 128
  {
    Pow2Values();
    MaskIsMod(value, 7);
    ShrIsDiv(value, 7);
    OrIsSum(value % 128, 1, 7);
  }

  /** Append the varint of `v` to the buffer, seven bits at a time. */
  method EncodeVarint(v: u64, buffer: seq<byte>) returns (out: seq<byte>)
    ensures out == buffer + VarintBytes(v)
  {
    var value: nat := v;
    out := buffer;
    while true
      invariant out + VarintBytes(value) == buffer + VarintBytes(v)
      decreases value
    {
      EncodeStep(value);
      var b := BitAnd(value, 0x7f);
      var more := Shr(value, 7);
      if more == 0 {
        out := out + [b];
        return;
      }
      assert VarintBytes(value) == [b + 128] + VarintBytes(more);
      assert out + [b + 128] + VarintBytes(more) == out + ([b + 128] + VarintBytes(more));
      out := out + [BitOr(b, 0x80)];
      value := more;
    }
  }

  lemma JoinDigit(result: nat, b: byte, k: nat)
    requires k <= 9 && result < Weight(k)
    ensures BitOr(result, Shl(BitAnd(b, 0x7f), 7 * k)) == result + Contribution(b, k)
    ensures k <= 8 ==> result + Contribution(b, k) < Weight(k + 1)
    ensures result + Contribution(b, k) < U64
  {
    Pow2Values();
    MaskIsMod(b, 7);
    ShiftedDigit(b, k);
    ContributionBound(b, k);
    WeightIsPow2(k);
    OrIsSum(result, if k <= 8 then b % 128 else b % 2, 7 * k);
    if k == 9 {
      WeightTable();
    } else {
      WeightBound(k);
    }
  }

  /** One more byte read: the digits from `pos` on are the byte at `pos` and the digits after it. */
  lemma NextDigit(data: seq<byte>, pos: nat, k: nat, value: nat)
    requires pos < |data|
    ensures Joined(value, Digits(data[pos..], k)) ==
            if data[pos] < 128 then Some((value + Contribution(data[pos], k), data[pos + 1..]))
            else if k >= 9 then None
            else Joined(value + Contribution(data[pos], k), Digits(data[pos + 1..], k + 1))
  {
  }

  /** Read a varint at `pos`, or fail; the shift-and-or loop sums the base-128 digits. */
  method DecodeVarint(data: seq<byte>, start: nat) returns (result: Option<u64>, pos: nat)
    requires start <= |data|
    ensures result.Some? <==> ReadVarint(data[start..]).Some?
    ensures start <= pos <= |data|
    ensures result.Some? ==> start < pos && ReadVarint(data[start..]) == Some((result.value, data[pos..]))
  {
    var value: u64 := 0;
    var shift := 0;
    pos := start;
    ghost var k := 0;
    ghost var read := ReadVarint(data[start..]);
    while true
      invariant start <= pos <= |data| && k <= 9 && shift == 7 * k && value < Weight(k)
      invariant read == Joined(value, Digits(data[pos..], k))
      decreases |data| - pos
    {
      if pos >= |data| {
        return None, pos;
      }
      var b := data[pos];
      NextDigit(data, pos, k, value);
      pos := pos + 1;
      JoinDigit(value, b, k);
      TopBit(b);
      value := BitOr(value, Shl(BitAnd(b, 0x7f), shift));
      if BitAnd(b, 0x80) == 0 {
        return Some(value), pos;
      }
      shift := shift + 7;
      if shift >= 64 {
        return None, pos;
      }
      k := k + 1;
    }
  }
}
