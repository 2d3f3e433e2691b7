/** Base-128 varints of the Protocol Buffers encoding, as both hosts read them
    (linux/src/preferences.rs, `Proto::varint`; windows/VniDrop.Core/AppPreferences.cs, `Varint`). */
module Varint {
  import opened Common
  import opened Utf8


  function Encode128(n: nat): (r: seq<Byte>)
    ensures r != []
  {
    if n < 128 then [n] else [128 + n % 128] + Encode128(n / 128)
  }

  /** The largest number still readable from round k (shift 7k) on. */
  function Limit(k: nat): nat
    decreases 9 - k
  {
    if k >= 9 then 1 else 128 * Limit(k + 1) + 127
  }

  lemma LimitIs64Bit()
    ensures Limit(0) == U64_MAX
  {
    assert Limit(8) == 0xFF && Limit(7) == 0x7FFF && Limit(6) == 0x3F_FFFF && Limit(5) == 0x1FFF_FFFF
        && Limit(4) == 0xF_FFFF_FFFF && Limit(3) == 0x7FF_FFFF_FFFF && Limit(2) == 0x3_FFFF_FFFF_FFFF
        && Limit(1) == 0x1FF_FFFF_FFFF_FFFF;
  }

  datatype Number = Number(value: nat, rest: seq<Byte>, used: nat)

  /** The number whose low seven bits come first; k rounds are done. There is no round 10: the tenth
      byte either ends the number or is refused. */
  function ReadFrom(s: seq<Byte>, k: nat): (r: Option<Number>)
    requires k <= 9
    ensures r.Some? ==> r.value.value <= Limit(k) && 1 <= r.value.used <= 10 - k
    ensures r.Some? ==> r.value.used <= |s| && r.value.rest == s[r.value.used..]
    decreases |s|
  {
    if s == [] || (k == 9 && s[0] > 1) then None
    else if s[0] < 128 then Some(Number(s[0], s[1..], 1))
    else
      match ReadFrom(s[1..], k + 1)
      case None => None
      case Some(Number(high, rest, used)) => Some(Number(s[0] % 128 + 128 * high, rest, used + 1))
  }

  function Read(s: seq<Byte>): (r: Option<(U64, seq<Byte>)>)
    ensures r.Some? ==> 1 <= |s| - |r.value.1| <= 10 && r.value.1 == s[|s| - |r.value.1|..]
  {
    LimitIs64Bit();
    match ReadFrom(s, 0)
    case None => None
    case Some(n) => Some((n.value, n.rest))
  }

  lemma Groups(n: nat, low: nat, high: nat, limit: nat)
    requires low == n % 128 && high == n / 128
    ensures (128 + low) % 128 == low && low + 128 * high == n && (n <= 128 * limit + 127 ==> high <= limit)
  {
  }

  lemma ReadMore(low: nat, tail: seq<Byte>, k: nat)
    requires low < 128 && k < 9 && ReadFrom(tail, k + 1).Some?
    ensures var next := ReadFrom(tail, k + 1).value;
      ReadFrom([128 + low] + tail, k) == Some(Number(low + 128 * next.value, next.rest, next.used + 1))
  {
    var s := [128 + low] + tail;
    assert s[1..] == tail && s[0] % 128 == low;
  }

  lemma {:induction false} ReadFromEncoded(n: nat, rest: seq<Byte>, k: nat)
    requires k <= 9 && n <= Limit(k)
    ensures var r := ReadFrom(Encode128(n) + rest, k); r.Some? && r.value.value == n && r.value.rest == rest
    decreases 9 - k
  {
    if n < 128 {
      assert (Encode128(n) + rest)[1..] == rest;
    } else {
      var low, high := n % 128, n / 128;
      Groups(n, low, high, Limit(k + 1));
      var tail := Encode128(high) + rest;
      assert Encode128(n) + rest == [128 + low] + tail;
      ReadFromEncoded(high, rest, k + 1);
      ReadMore(low, tail, k);
    }
  }

  /** Every 64-bit value is read back from its encoding, whatever follows. */
  lemma ReadEncoded(n: U64, rest: seq<Byte>)
    ensures Read(Encode128(n) + rest) == Some((n, rest))
  {
    LimitIs64Bit();
    ReadFromEncoded(n, rest, 0);
  }

  lemma EncodeMore(byte: Byte, high: nat)
    requires byte >= 128 && high > 0
    ensures Encode128(byte % 128 + 128 * high) == [byte] + Encode128(high)
  {
    var n := byte % 128 + 128 * high;
    assert n / 128 == high && 128 + n % 128 == byte;
  }

  /** Conversely a number read from its shortest form was written by the encoder. */
  lemma {:induction false} EncodeRead(s: seq<Byte>, k: nat)
    requires k <= 9 && ReadFrom(s, k).Some?
    requires ReadFrom(s, k).value.used > 1 ==> s[ReadFrom(s, k).value.used - 1] != 0
    ensures Encode128(ReadFrom(s, k).value.value) == s[..ReadFrom(s, k).value.used]
    decreases |s|
  {
    if s[0] >= 128 {
      var tail := s[1..];
      assert s == [128 + (s[0] - 128)] + tail;
      var high := ReadFrom(tail, k + 1).value;
      ReadMore(s[0] - 128, tail, k);
      assert tail[high.used - 1] == s[high.used];
      EncodeRead(tail, k + 1);
      NonZero(tail, k + 1);
      EncodeMore(s[0], high.value);
      assert s[..high.used + 1] == [s[0]] + tail[..high.used];
    } else {
      assert s[..1] == [s[0]];
    }
  }

  lemma {:induction false} NonZero(s: seq<Byte>, k: nat)
    requires k <= 9 && ReadFrom(s, k).Some? && s[ReadFrom(s, k).value.used - 1] != 0
    ensures ReadFrom(s, k).value.value > 0
    decreases |s|
  {
    if s[0] >= 128 {
      var used := ReadFrom(s[1..], k + 1).value.used;
      assert s[1..][used - 1] == s[used];
      NonZero(s[1..], k + 1);
    }
  }

  // ---------------------------------------------------------------- the loop

  /** `n << 7k` */
  function Scale(n: nat, k: nat): nat {
    if k == 0 then n else 128 * Scale(n, k - 1)
  }

  lemma {:induction false} ScaleSum(low: nat, high: nat, k: nat)
    ensures Scale(low + 128 * high, k) == Scale(low, k) + Scale(high, k + 1)
  {
    if k > 0 {
      ScaleSum(low, high, k - 1);
    }
  }

  // ---------------------------------------------------------------- the 64-bit operations

  /** `|`, binary digit by binary digit. */
  function Or(a: nat, b: nat): nat {
    if a == 0 && b == 0 then 0 else 2 * Or(a / 2, b / 2) + (if a % 2 == 1 || b % 2 == 1 then 1 else 0)
  }

  /** `&` */
  function And(a: nat, b: nat): (r: nat)
    ensures r <= b
  {
    if a == 0 || b == 0 then 0 else 2 * And(a / 2, b / 2) + (if a % 2 == 1 && b % 2 == 1 then 1 else 0)
  }

  /** `<<`, which drops what leaves the 64 bits. */
  function ShiftLeft(n: U64, bits: nat): U64 {
    if bits == 0 then n else 2 * ShiftLeft(n, bits - 1) % (U64_MAX + 1)
  }

  function Doubled(n: nat, bits: nat): nat {
    if bits == 0 then n else 2 * Doubled(n, bits - 1)
  }

  lemma {:induction false} OrZero(b: nat)
    ensures Or(0, b) == b
  {
    if b > 0 {
      OrZero(b / 2);
    }
  }

  /** On disjoint digits `|` is addition. */
  lemma {:induction false} OrIsPlus(a: nat, b: nat, bits: nat)
    requires a < Doubled(1, bits)
    ensures Or(a, Doubled(b, bits)) == a + Doubled(b, bits)
  {
    if bits == 0 {
      OrZero(b);
    } else {
      OrIsPlus(a / 2, b, bits - 1);
    }
  }

  function Halved(n: nat, bits: nat): nat {
    if bits == 0 then n else Halved(n / 2, bits - 1)
  }

  /** A mask of ones keeps the low digits. */
  lemma {:induction false} MaskKeepsLow(a: nat, bits: nat)
    ensures 0 < Doubled(1, bits) && And(a, Doubled(1, bits) - 1) + Doubled(Halved(a, bits), bits) == a
  {
    if bits > 0 {
      MaskKeepsLow(a / 2, bits - 1);
      assert And(0, Doubled(1, bits - 1) - 1) == 0;
    }
  }

  lemma LowPart(n: nat, low: nat, high: nat)
    requires n == low + 128 * high && low < 128
    ensures low == n % 128
  {
  }

  lemma MaskByte(byte: Byte)
    ensures And(byte, 127) == byte % 128
  {
    MaskKeepsLow(byte, 7);
    var high := Halved(byte, 7);
    ScaleIsDoubling(1, 1);
    ScaleIsDoubling(high, 1);
    assert Scale(1, 1) == 128 && Scale(high, 1) == 128 * high;
    LowPart(byte, And(byte, 127), high);
  }

  lemma {:induction false} ShiftIsDoubling(n: U64, bits: nat)
    requires Doubled(n, bits) <= U64_MAX
    ensures ShiftLeft(n, bits) == Doubled(n, bits)
  {
    if bits > 0 {
      ShiftIsDoubling(n, bits - 1);
    }
  }

  lemma {:induction false} ScaleIsDoubling(n: nat, k: nat)
    ensures Doubled(n, 7 * k) == Scale(n, k)
  {
    if k > 0 {
      ScaleIsDoubling(n, k - 1);
      var m := 7 * k - 7;
      assert Doubled(n, m + 7) == 2 * Doubled(n, m + 6) && Doubled(n, m + 6) == 2 * Doubled(n, m + 5);
      assert Doubled(n, m + 5) == 2 * Doubled(n, m + 4) && Doubled(n, m + 4) == 2 * Doubled(n, m + 3);
      assert Doubled(n, m + 3) == 2 * Doubled(n, m + 2) && Doubled(n, m + 2) == 2 * Doubled(n, m + 1);
      assert Doubled(n, m + 1) == 2 * Doubled(n, m);
    }
  }

  lemma {:induction false} ScaleAdds(a: nat, b: nat, k: nat)
    ensures Scale(a + b, k) == Scale(a, k) + Scale(b, k)
  {
    if k > 0 {
      ScaleAdds(a, b, k - 1);
    }
  }

  lemma {:induction false} ScaleGrows(j: nat, k: nat)
    requires j <= k
    ensures 0 < Scale(1, j) <= Scale(1, k)
  {
    if j < k {
      ScaleGrows(j, k - 1);
    } else if k > 0 {
      ScaleGrows(j - 1, k - 1);
    }
  }

  /** What one round of the source does with `|`, `&` and `<<` on 64 bits is the addition of the model,
      and the result leaves the digits of the next round free. */
  lemma RoundIsPlus(result: U64, byte: Byte, k: nat)
    requires k <= 9 && result < Scale(1, k) && (k == 9 ==> byte <= 1)
    ensures Shifted(byte, k) <= U64_MAX
    ensures Or(result, ShiftLeft(And(byte, 127), 7 * k)) == result + Shifted(byte, k) <= U64_MAX
    ensures result + Shifted(byte, k) < Scale(1, k + 1)
  {
    var low := byte % 128;
    MaskByte(byte);
    ScaleAdds(low, 127 - low, k);
    ScaleAdds(127, 1, k);
    ScaleAdds(0, 0, k);
    ScaleSum(0, 1, k);
    assert result + Scale(low, k) < Scale(1, k + 1);
    assert Scale(1, 9) == 0x8000_0000_0000_0000;
    if k < 9 {
      ScaleGrows(k + 1, 9);
    }
    ScaleIsDoubling(low, k);
    ScaleIsDoubling(1, k);
    ShiftIsDoubling(low, 7 * k);
    OrIsPlus(result, low, 7 * k);
  }

  /** `(byte & 127) << 7k` */
  function Shifted(byte: Byte, k: nat): nat {
    Scale(byte % 128, k)
  }

  /** The rounds of the source from k on, with the number accumulated so far. */
  function Rounds(s: seq<Byte>, k: nat, result: nat): Option<(nat, seq<Byte>)>
    requires k <= 9
    decreases |s|
  {
    if s == [] || (k == 9 && s[0] > 1) then None
    else if s[0] < 128 then Some((result + Shifted(s[0], k), s[1..]))
    else Rounds(s[1..], k + 1, result + Shifted(s[0], k))
  }

  lemma {:induction false} RoundsRead(s: seq<Byte>, k: nat, result: nat)
    requires k <= 9
    ensures Rounds(s, k, result).Some? <==> ReadFrom(s, k).Some?
    ensures ReadFrom(s, k).Some? ==>
      Rounds(s, k, result) == Some((result + Scale(ReadFrom(s, k).value.value, k), ReadFrom(s, k).value.rest))
    decreases |s|
  {
    if s != [] && s[0] >= 128 && k < 9 {
      RoundsRead(s[1..], k + 1, result + Shifted(s[0], k));
      var next := ReadFrom(s[1..], k + 1);
      if next.Some? {
        ScaleSum(s[0] % 128, next.value.value, k);
      }
    }
  }

  /** Started afresh the rounds read exactly the number. */
  lemma RoundsFromStart(s: seq<Byte>)
    ensures Rounds(s, 0, 0).Some? <==> Read(s).Some?
    ensures Rounds(s, 0, 0).Some? ==> Rounds(s, 0, 0).value == Read(s).value && Rounds(s, 0, 0).value.0 <= U64_MAX
  {
    LimitIs64Bit();
    RoundsRead(s, 0, 0);
  }

  /** `result |= (byte & 127) << 7k` */
  method AddRound(result: U64, byte: Byte, k: nat) returns (r: U64)
    requires k <= 9 && result < Scale(1, k) && (k == 9 ==> byte <= 1)
    ensures r == result + Shifted(byte, k) < Scale(1, k + 1)
  {
    RoundIsPlus(result, byte, k);
    return Or(result, ShiftLeft(And(byte, 127), 7 * k));
  }

  method ReadVarint(s: seq<Byte>) returns (r: Option<(U64, seq<Byte>)>)
    ensures r == Read(s)
  {
    RoundsFromStart(s);
    var data, result: U64, k := s, 0, 0;
    while k < 10
      invariant k < 10 && Rounds(data, k, result) == Rounds(s, 0, 0) && result < Scale(1, k)
      decreases 10 - k
    {
      if data == [] || (k == 9 && data[0] > 1) {
        return None;
      }
      var byte := data[0];
      result := AddRound(result, byte, k);
      data := data[1..];
      if byte < 128 {
        return Some((result, data));
      }
      k := k + 1;
    }
    assert false;  // the loop of the source cannot run out of rounds
  }
}
