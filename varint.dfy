/**
 * The VarInt codec of the Server List Ping protocol (minecraft.go:16-46):
 * seven payload bits per byte, low group first, the high bit (0x80) set on
 * every byte but the last.
 */
module VarInt {
  import opened Results

  /** A Go `byte`. */
  type byte = b: int | 0 <= b < 0x100

  /** 2^n. */
  function Pow2(n: nat): (r: nat)
    ensures r > 0
  {
    if n == 0 then 1 else 2 * Pow2(n - 1)
  }

  lemma {:induction false} Pow2Add(a: nat, b: nat)
    ensures Pow2(a + b) == Pow2(a) * Pow2(b)
  {
    if a > 0 {
      Pow2Add(a - 1, b);
    }
  }

  /** Shifting by one more 7-bit group multiplies by 0x80. */
  lemma Pow2Group(p: nat)
    ensures Pow2(p + 7) == 0x80 * Pow2(p)
  {
    Pow2Add(p, 7);
    assert Pow2(7) == 0x80;
  }

  /**
   * The bytes `writeVarInt(value)` returns, for any Go `int`. While the value
   * lies outside [0, 0x80) (the test `value & ^0x7F == 0` fails, which is
   * every negative value too) the low 7 bits go out with the continuation bit
   * and the loop continues with `int(uint32(value) >> 7)`, that is the value
   * truncated to 32 bits and shifted: Dafny's `%` is Euclidean, so
   * `value % 0x1_0000_0000` is exactly the two's-complement `uint32` cast.
   */
  function EncodeVarInt(value: int): seq<byte>
    decreases if value < 0 then 0x1_0000_0000 else value
  {
    if 0 <= value < 0x80 then [value]
    else
      NextGroupBounds(value);
      [value % 0x80 + 0x80] + EncodeVarInt(NextGroup(value))
  }

  /** `int(uint32(value) >> 7)`: the value the writeVarInt loop continues with. */
  function NextGroup(value: int): int
  {
    (value % 0x1_0000_0000) / 0x80
  }

  lemma NextGroupBounds(value: int)
    ensures 0 <= NextGroup(value) < 0x200_0000
    ensures value >= 0 ==> NextGroup(value) <= value / 0x80
  {
    var u := value % 0x1_0000_0000;
    assert 0 <= u < 0x1_0000_0000;
    if value >= 0 {
      assert u <= value;
    }
  }

  /** writeVarInt: the Go loop, appending to `buf` while shifting `value`. */
  method WriteVarInt(value: int) returns (buf: seq<byte>)
    ensures buf == EncodeVarInt(value)
  {
    buf := [];
    var v := value;
    while true
      invariant buf + EncodeVarInt(v) == EncodeVarInt(value)
      decreases if v < 0 then 0x1_0000_0000 else v
    {
      if 0 <= v < 0x80 {
        buf := buf + [v];
        break;
      }
      NextGroupBounds(v);
      var group: byte := v % 0x80 + 0x80;
      assert EncodeVarInt(v) == [group] + EncodeVarInt(NextGroup(v));
      assert buf + [group] + EncodeVarInt(NextGroup(v)) == buf + EncodeVarInt(v);
      buf := buf + [group];
      v := NextGroup(v);
    }
  }

  /** 0x80^n: the values that fit in n groups of 7 bits, for the at most five groups of a VarInt. */
  function GroupsBound(n: nat): nat
    requires n <= 5
  {
    match n
    case 0 => 1
    case 1 => 0x80
    case 2 => 0x4000
    case 3 => 0x20_0000
    case 4 => 0x1000_0000
    case 5 => 0x8_0000_0000
  }

  /** Dropping the low group of a value of n >= 2 groups leaves n - 1 groups. */
  lemma ShiftGroup(v: int, n: nat) returns (high: int)
    requires 1 <= n <= 5 && 0x80 <= v < GroupsBound(n) && v < 0x1_0000_0000
    ensures high == NextGroup(v) == v / 0x80 && 2 <= n
    ensures 0 <= high < GroupsBound(n - 1) && v % 0x80 + 0x80 * high == v
  {
    high := v / 0x80;
    assert v % 0x1_0000_0000 == v;
  }

  /** A non-negative value below 0x80^n (1 <= n <= 5) encodes to at most n bytes, all but the last flagged. */
  lemma {:induction false} EncodeUnsignedShape(v: int, n: nat)
    requires 1 <= n <= 5 && 0 <= v < GroupsBound(n) && v < 0x1_0000_0000
    ensures var e := EncodeVarInt(v);
      && 1 <= |e| <= n
      && (forall i :: 0 <= i < |e| - 1 ==> e[i] >= 0x80)
      && e[|e| - 1] < 0x80
  {
    if v >= 0x80 {
      assert NextGroup(v) == v / 0x80;
      EncodeUnsignedShape(v / 0x80, n - 1);
    }
  }

  /**
   * writeVarInt returns one to five bytes for every int; every byte but the
   * last has the continuation bit set and the last has it clear.
   */
  lemma EncodeShape(value: int)
    ensures var e := EncodeVarInt(value);
      && 1 <= |e| <= 5
      && (forall i :: 0 <= i < |e| - 1 ==> e[i] >= 0x80)
      && e[|e| - 1] < 0x80
  {
    if !(0 <= value < 0x80) {
      NextGroupBounds(value);
      EncodeUnsignedShape(NextGroup(value), 4);
    }
  }

  /** A value in [0x80^(n-1), 0x80^n), below 2^32, takes exactly n bytes. */
  lemma {:induction false} UnsignedLength(u: int, n: nat)
    requires 1 <= n <= 5 && GroupsBound(n - 1) <= u < GroupsBound(n) && u < 0x1_0000_0000
    ensures |EncodeVarInt(u)| == n
  {
    if n > 1 {
      var high := ShiftGroup(u, n);
      UnsignedLength(high, n - 1);
    }
  }

  /**
   * Only the first group comes from the full value; the rest come from its
   * low 32 bits. A value in [-2^31, 0) takes all five bytes...
   */
  lemma NegativeLength(value: int)
    requires -0x8000_0000 <= value < 0
    ensures |EncodeVarInt(value)| == 5
  {
    NextGroupBounds(value);
    assert 0x8000_0000 <= value % 0x1_0000_0000;
    UnsignedLength(NextGroup(value), 4);
  }

  /** ...while a smaller one can take fewer: -2^32 has low 32 bits 0 and goes out as 0x80 0x00. */
  lemma NegativeExamples()
    ensures EncodeVarInt(-1) == [0xFF, 0xFF, 0xFF, 0xFF, 0x0F]
    ensures EncodeVarInt(-0x1_0000_0000) == [0x80, 0x00]
  {
    assert NextGroup(-0x1_0000_0000) == 0;
    assert NextGroup(-1) == 0x1FF_FFFF;
    assert NextGroup(0x1FF_FFFF) == 0x3_FFFF;
    assert NextGroup(0x3_FFFF) == 0x7FF;
    assert NextGroup(0x7FF) == 0x0F;
  }

  /** The result of reading one VarInt: its value and how many bytes it took. */
  datatype Decoded = Decoded(value: int, length: nat)

  /** Why readVarInt fails: the reader ran dry, or five bytes all had the continuation bit. */
  datatype VarIntError = EndOfStream | TooLarge

  /**
   * The reference reading of a VarInt whose first byte is the k-th (from 0)
   * the reader delivers: a byte without the continuation bit ends it; a
   * flagged fifth byte is "VarInt is too large".
   */
  function DecodeGroups(s: seq<byte>, k: nat): (r: Result<Decoded, VarIntError>)
    requires k < 5
    decreases 5 - k
    ensures r.Success? ==> 1 <= r.value.length <= 5 - k && r.value.length <= |s|
    ensures r.Success? ==> 0 <= r.value.value < GroupsBound(5 - k)
  {
    if |s| == 0 then Failure(EndOfStream)
    else if s[0] < 0x80 then Success(Decoded(s[0], 1))
    else if k == 4 then Failure(TooLarge)
    else
      match DecodeGroups(s[1..], k + 1)
      case Failure(e) => Failure(e)
      case Success(d) => Success(Decoded(s[0] - 0x80 + 0x80 * d.value, d.length + 1))
  }

  /** readVarInt over the bytes the reader would deliver. */
  function DecodeVarInt(s: seq<byte>): (r: Result<Decoded, VarIntError>)
    ensures r.Success? ==> 1 <= r.value.length <= 5 && r.value.length <= |s|
    ensures r.Success? ==> 0 <= r.value.value < 0x8_0000_0000
  {
    DecodeGroups(s, 0)
  }

  /**
   * How reading from group k ends: the first byte without the continuation
   * bit ends it; five flagged groups are too large; running out of bytes
   * before either is the reader's error.
   */
  lemma DecodeGroupsOutcome(s: seq<byte>, k: nat)
    requires k < 5
    ensures var r := DecodeGroups(s, k);
      && (r.Success? ==> s[r.value.length - 1] < 0x80 && forall i :: 0 <= i < r.value.length - 1 ==> s[i] >= 0x80)
      && (r == Failure(TooLarge) <==> |s| >= 5 - k && forall i :: 0 <= i < 5 - k ==> s[i] >= 0x80)
      && (r == Failure(EndOfStream) <==> |s| < 5 - k && forall i :: 0 <= i < |s| ==> s[i] >= 0x80)
  {
    DecodeGroupsEnds(s, k);
    DecodeGroupsTooLarge(s, k);
    DecodeGroupsEndOfStream(s, k);
  }

  lemma {:induction false} DecodeGroupsEnds(s: seq<byte>, k: nat)
    requires k < 5
    decreases 5 - k
    ensures var r := DecodeGroups(s, k);
      r.Success? ==> s[r.value.length - 1] < 0x80 && forall i :: 0 <= i < r.value.length - 1 ==> s[i] >= 0x80
  {
    if |s| > 0 && s[0] >= 0x80 && k < 4 {
      DecodeGroupsEnds(s[1..], k + 1);
      var r := DecodeGroups(s, k);
      if r.Success? {
        assert forall i :: 0 <= i < r.value.length - 2 ==> s[1..][i] == s[i + 1];
      }
    }
  }

  lemma {:induction false} DecodeGroupsTooLarge(s: seq<byte>, k: nat)
    requires k < 5
    decreases 5 - k
    ensures DecodeGroups(s, k) == Failure(TooLarge) <==> |s| >= 5 - k && forall i :: 0 <= i < 5 - k ==> s[i] >= 0x80
  {
    if |s| > 0 && s[0] >= 0x80 && k < 4 {
      DecodeGroupsTooLarge(s[1..], k + 1);
      if |s| >= 5 - k && forall i :: 1 <= i < 5 - k ==> s[i] >= 0x80 {
        assert forall i :: 0 <= i < 4 - k ==> s[1..][i] >= 0x80;
      }
    }
  }

  lemma {:induction false} DecodeGroupsEndOfStream(s: seq<byte>, k: nat)
    requires k < 5
    decreases 5 - k
    ensures DecodeGroups(s, k) == Failure(EndOfStream) <==> |s| < 5 - k && forall i :: 0 <= i < |s| ==> s[i] >= 0x80
  {
    if |s| > 0 && s[0] >= 0x80 && k < 4 {
      DecodeGroupsEndOfStream(s[1..], k + 1);
      if |s| < 5 - k && forall i :: 1 <= i < |s| ==> s[i] >= 0x80 {
        assert forall i :: 0 <= i < |s| - 1 ==> s[1..][i] >= 0x80;
      }
    }
  }

  /**
   * readVarInt succeeds exactly when one of the first five bytes lacks the
   * continuation bit, and then consumes up to and including the first such
   * byte; it fails with "VarInt is too large" exactly when the first five
   * bytes are all flagged (so it never reads a sixth), and with the reader's
   * error exactly when the input ends before either happens.
   */
  lemma VarIntOutcome(s: seq<byte>)
    ensures var r := DecodeVarInt(s);
      && (r.Success? ==> s[r.value.length - 1] < 0x80 && forall i :: 0 <= i < r.value.length - 1 ==> s[i] >= 0x80)
      && (r == Failure(TooLarge) <==> |s| >= 5 && forall i :: 0 <= i < 5 ==> s[i] >= 0x80)
      && (r == Failure(EndOfStream) <==> |s| < 5 && forall i :: 0 <= i < |s| ==> s[i] >= 0x80)
  {
    DecodeGroupsOutcome(s, 0);
  }

  /** Places the reading of the rest of a VarInt above `low`, `scale` being 2^(bits already read). */
  function Lift(low: int, scale: int, consumed: nat, r: Result<Decoded, VarIntError>): Result<Decoded, VarIntError>
  {
    match r
    case Failure(e) => Failure(e)
    case Success(d) => Success(Decoded(low + scale * d.value, consumed + d.length))
  }

  /** One more flagged byte read: its group joins the low bits and the rest is read as the next group. */
  lemma LiftStep(s: seq<byte>, i: nat, value: int, scale: int)
    requires i < 4 && i < |s| && s[i] >= 0x80
    requires DecodeVarInt(s) == Lift(value, scale, i, DecodeGroups(s[i..], i))
    ensures DecodeVarInt(s) == Lift(value + (s[i] % 0x80) * scale, scale * 0x80, i + 1, DecodeGroups(s[i + 1..], i + 1))
  {
    var t := s[i..];
    assert t[0] == s[i];
    assert t[1..] == s[i + 1..];
    var low := s[i] % 0x80;
    assert low == s[i] - 0x80;
    var inner := DecodeGroups(s[i + 1..], i + 1);
    assert DecodeGroups(t, i) == Lift(low, 0x80, 1, inner);
    LiftCompose(value, scale, i, low, inner);
  }

  /** Lifting twice is lifting once by the combined low bits and scale. */
  lemma LiftCompose(value: int, scale: int, consumed: nat, low: int, inner: Result<Decoded, VarIntError>)
    ensures Lift(value, scale, consumed, Lift(low, 0x80, 1, inner))
         == Lift(value + low * scale, scale * 0x80, consumed + 1, inner)
  {
    if inner.Success? {
      Distribute(scale, low, inner.value.value);
    }
  }

  lemma Distribute(scale: int, low: int, high: int)
    ensures scale * (low + 0x80 * high) == low * scale + (scale * 0x80) * high
  {
  }

  /** The byte at i ends the VarInt, or is a flagged fifth byte, or the reader has run dry. */
  lemma LiftLast(s: seq<byte>, i: nat, value: int, scale: int)
    requires i <= 4 && i <= |s|
    ensures i == |s| ==> Lift(value, scale, i, DecodeGroups(s[i..], i)) == Failure(EndOfStream)
    ensures i < |s| && s[i] < 0x80 ==>
      Lift(value, scale, i, DecodeGroups(s[i..], i)) == Success(Decoded(value + s[i] * scale, i + 1))
    ensures i == 4 < |s| && s[i] >= 0x80 ==> Lift(value, scale, i, DecodeGroups(s[i..], i)) == Failure(TooLarge)
  {
    if i < |s| {
      assert s[i..][0] == s[i];
    }
  }

  /** A new group added below 2^(position+7) when the value so far is below 2^position. */
  lemma GroupFits(value: int, group: int, scale: int)
    requires 0 <= value < scale && 0 <= group < 0x80
    ensures 0 <= value + group * scale < 0x80 * scale
  {
  }

  /** What holds before the reader delivers byte i: bytes 0..i-1 went into `value` below 2^position. */
  ghost predicate ReadState(s: seq<byte>, i: nat, value: int, position: nat)
  {
    && i <= 4 && position == 7 * i && i <= |s|
    && 0 <= value < Pow2(position)
    && DecodeVarInt(s) == Lift(value, Pow2(position), i, DecodeGroups(s[i..], i))
  }

  /** Reading a flagged byte that is not the fifth keeps ReadState. */
  lemma ReadStep(s: seq<byte>, i: nat, value: int, position: nat)
    requires ReadState(s, i, value, position) && i < |s| && s[i] >= 0x80 && i < 4
    ensures ReadState(s, i + 1, value + (s[i] % 0x80) * Pow2(position), position + 7)
  {
    var scale := Pow2(position);
    LiftStep(s, i, value, scale);
    Pow2Group(position);
    GroupFits(value, s[i] % 0x80, scale);
  }

  /** Reading the byte that ends the VarInt completes it. */
  lemma ReadEnd(s: seq<byte>, i: nat, value: int, position: nat)
    requires ReadState(s, i, value, position) && i < |s| && s[i] < 0x80
    ensures DecodeVarInt(s) == Success(Decoded(value + (s[i] % 0x80) * Pow2(position), i + 1))
  {
    LiftLast(s, i, value, Pow2(position));
  }

  /**
   * readVarInt: the Go loop, reading byte s[i] as the reader's next byte.
   * `value |= group << position` is written as an addition: ReadState keeps
   * `value < 2^position`, so the group lands on bits that are still zero.
   */
  method ReadVarInt(s: seq<byte>) returns (r: Result<Decoded, VarIntError>)
    ensures r == DecodeVarInt(s)
  {
    var value, position := 0, 0;
    var i := 0;
    assert s[0..] == s;
    while true
      invariant ReadState(s, i, value, position)
      decreases 4 - i
    {
      if i == |s| {
        LiftLast(s, i, value, Pow2(position));
        return Failure(EndOfStream);
      }
      var currentByte := s[i];
      if currentByte < 0x80 {
        ReadEnd(s, i, value, position);
      } else if i == 4 {
        LiftLast(s, i, value, Pow2(position));
      } else {
        ReadStep(s, i, value, position);
      }
      value := value + (currentByte % 0x80) * Pow2(position);
      i := i + 1;
      if currentByte < 0x80 {
        break;
      }
      position := position + 7;
      if position >= 32 {
        return Failure(TooLarge);
      }
    }
    r := Success(Decoded(value, i));
  }

  /** Encoding a value below 0x80^(5-k) and 2^32, then reading it as group k onward, gives it back. */
  lemma {:induction false} DecodeEncodedUnsigned(v: int, k: nat, rest: seq<byte>)
    requires k < 5 && 0 <= v < GroupsBound(5 - k) && v < 0x1_0000_0000
    ensures DecodeGroups(EncodeVarInt(v) + rest, k) == Success(Decoded(v, |EncodeVarInt(v)|))
  {
    var s := EncodeVarInt(v) + rest;
    if v >= 0x80 {
      var high := ShiftGroup(v, 5 - k);
      var tail := EncodeVarInt(high);
      assert EncodeVarInt(v) == [v % 0x80 + 0x80] + tail;
      assert s[0] == v % 0x80 + 0x80;
      assert s[1..] == tail + rest;
      DecodeEncodedUnsigned(high, k + 1, rest);
      DecodeFlagged(s, k, v % 0x80, Decoded(high, |tail|));
    }
  }

  /** A flagged byte before a successful reading of the next group adds that reading above its low bits. */
  lemma DecodeFlagged(s: seq<byte>, k: nat, low: int, d: Decoded)
    requires k < 4 && |s| > 0 && 0 <= low < 0x80 && s[0] == low + 0x80
    requires DecodeGroups(s[1..], k + 1) == Success(d)
    ensures DecodeGroups(s, k) == Success(Decoded(low + 0x80 * d.value, d.length + 1))
  {
  }

  /**
   * Round trip: reading what writeVarInt wrote, followed by anything, gives
   * back the value reduced to 32 bits (so exactly the value for
   * 0 <= value < 2^32) and consumes exactly the written bytes.
   */
  lemma VarIntRoundTrip(value: int, rest: seq<byte>)
    ensures DecodeVarInt(EncodeVarInt(value) + rest)
         == Success(Decoded(value % 0x1_0000_0000, |EncodeVarInt(value)|))
  {
    if !(0 <= value < 0x80) {
      DecodeFlaggedFirst(value, rest);
      LowGroup(value);
    }
  }

  /** A value that needs more than one group reads back as its low group plus 0x80 times the rest. */
  lemma DecodeFlaggedFirst(value: int, rest: seq<byte>)
    requires !(0 <= value < 0x80)
    ensures DecodeVarInt(EncodeVarInt(value) + rest)
         == Success(Decoded(value % 0x80 + 0x80 * NextGroup(value), |EncodeVarInt(value)|))
  {
    var low, next := EncodeFlagged(value);
    var tail := EncodeVarInt(next);
    var s := EncodeVarInt(value) + rest;
    assert s == [low + 0x80] + (tail + rest);
    assert s[1..] == tail + rest;
    DecodeEncodedUnsigned(next, 1, rest);
    DecodeFlagged(s, 0, low, Decoded(next, |tail|));
  }

  /** A value outside [0, 0x80) is written as its flagged low group followed by the shifted 32-bit value. */
  lemma EncodeFlagged(value: int) returns (low: int, next: int)
    requires !(0 <= value < 0x80)
    ensures low == value % 0x80 && next == NextGroup(value)
    ensures 0 <= low < 0x80 && 0 <= next < 0x200_0000
    ensures EncodeVarInt(value) == [low + 0x80] + EncodeVarInt(next)
  {
    low, next := value % 0x80, NextGroup(value);
    NextGroupBounds(value);
  }

  /** The round trip for the values the protocol sends: exactly the value back. */
  lemma VarIntRoundTripUnsigned(value: int, rest: seq<byte>)
    requires 0 <= value < 0x1_0000_0000
    ensures DecodeVarInt(EncodeVarInt(value) + rest) == Success(Decoded(value, |EncodeVarInt(value)|))
  {
    VarIntRoundTrip(value, rest);
    SmallMod(value);
  }

  lemma SmallMod(value: int)
    requires 0 <= value < 0x1_0000_0000
    ensures value % 0x1_0000_0000 == value
  {
  }

  /** The first group and the shifted 32-bit truncation put back together give the truncation. */
  lemma LowGroup(value: int)
    ensures value % 0x80 + 0x80 * NextGroup(value) == value % 0x1_0000_0000
  {
    var u := value % 0x1_0000_0000;
    var q := value / 0x1_0000_0000;
    var h := u / 0x80;
    var l := u % 0x80;
    assert u == 0x80 * h + l && 0 <= l < 0x80;
    assert value == 0x80 * (0x200_0000 * q + h) + l;
    LowDigit(value, 0x200_0000 * q + h, l);
  }

  lemma LowDigit(x: int, d: int, l: int)
    requires 0 <= l < 0x80 && x == 0x80 * d + l
    ensures x % 0x80 == l
  {
  }

  /** readVarInt never looks past the fifth byte. */
  lemma {:induction false} DecodeReadsAtMostFive(s: seq<byte>, t: seq<byte>)
    requires |s| >= 5 && |t| >= 5 && s[..5] == t[..5]
    ensures DecodeVarInt(s) == DecodeVarInt(t)
  {
    DecodeGroupsPrefix(s, t, 0);
  }

  lemma {:induction false} DecodeGroupsPrefix(s: seq<byte>, t: seq<byte>, k: nat)
    requires k < 5 && |s| >= 5 - k && |t| >= 5 - k && s[..5 - k] == t[..5 - k]
    ensures DecodeGroups(s, k) == DecodeGroups(t, k)
    decreases 5 - k
  {
    assert s[0] == s[..5 - k][0] && t[0] == t[..5 - k][0];
    if s[0] >= 0x80 && k < 4 {
      assert s[1..][..4 - k] == s[..5 - k][1..];
      assert t[1..][..4 - k] == t[..5 - k][1..];
      DecodeGroupsPrefix(s[1..], t[1..], k + 1);
    }
  }

  /** A VarInt that was read successfully reads the same whatever follows it. */
  lemma {:induction false} DecodeExtend(s: seq<byte>, t: seq<byte>)
    requires DecodeVarInt(s).Success?
    ensures DecodeVarInt(s + t) == DecodeVarInt(s)
  {
    DecodeGroupsExtend(s, t, 0);
  }

  lemma {:induction false} DecodeGroupsExtend(s: seq<byte>, t: seq<byte>, k: nat)
    requires k < 5 && DecodeGroups(s, k).Success?
    ensures DecodeGroups(s + t, k) == DecodeGroups(s, k)
    decreases 5 - k
  {
    assert (s + t)[0] == s[0];
    if s[0] >= 0x80 {
      assert (s + t)[1..] == s[1..] + t;
      DecodeGroupsExtend(s[1..], t, k + 1);
    }
  }
}
