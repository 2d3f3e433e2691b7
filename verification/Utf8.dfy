/** UTF-8 as defined in section 3 of RFC 3629, on Unicode scalar values. */
module Utf8 {
  import opened Common

  type Byte = b: int | 0 <= b < 256
  type Scalar = c: int | 0 <= c < 0xD800 || 0xE000 <= c < 0x110000

  /** `(b & 0xC0) == 0x80` */
  predicate IsContinuation(b: Byte) {
    b / 64 == 2
  }

  function EncodeScalar(c: Scalar): (r: seq<Byte>)
    ensures 1 <= |r| <= 4 && !IsContinuation(r[0])
    ensures forall i | 1 <= i < |r| :: IsContinuation(r[i])
  {
    if c < 0x80 then [c]
    else if c < 0x800 then [0xC0 + c / 64, 0x80 + c % 64]
    else if c < 0x10000 then [0xE0 + c / 64 / 64, 0x80 + c / 64 % 64, 0x80 + c % 64]
    else [0xF0 + c / 64 / 64 / 64, 0x80 + c / 64 / 64 % 64, 0x80 + c / 64 % 64, 0x80 + c % 64]
  }

  function Encode(text: seq<Scalar>): seq<Byte> {
    if text == [] then [] else EncodeScalar(text[0]) + Encode(text[1..])
  }

  /** Six more bits from a continuation byte. */
  function Join(high: int, low: int): int {
    high * 64 + (low - 0x80)
  }

  lemma JoinSplit(high: int, low: int)
    requires 0x80 <= low < 0xC0
    ensures Join(high, low) / 64 == high && 0x80 + Join(high, low) % 64 == low
  {
  }

  /** The first character of `b` and its length, or None when `b` does not start with a well-formed
      sequence: overlong forms, surrogates and values past U+10FFFF are rejected. */
  function DecodeFirst(b: seq<Byte>): (r: Option<(Scalar, nat)>)
    requires b != []
    ensures r.Some? ==> 1 <= r.value.1 <= |b|
  {
    if b[0] < 0x80 then Some((b[0], 1))
    else if 0xC2 <= b[0] < 0xE0 && |b| >= 2 && IsContinuation(b[1]) then
      Some((Join(b[0] - 0xC0, b[1]), 2))
    else if 0xE0 <= b[0] < 0xF0 && |b| >= 3 && IsContinuation(b[1]) && IsContinuation(b[2]) then
      var v := Join(Join(b[0] - 0xE0, b[1]), b[2]);
      if 0x800 <= v < 0xD800 || 0xE000 <= v then Some((v, 3)) else None
    else if 0xF0 <= b[0] < 0xF8 && |b| >= 4 && IsContinuation(b[1]) && IsContinuation(b[2]) && IsContinuation(b[3]) then
      var v := Join(Join(Join(b[0] - 0xF0, b[1]), b[2]), b[3]);
      if 0x10000 <= v < 0x110000 then Some((v, 4)) else None
    else None
  }

  function Decode(b: seq<Byte>): Option<seq<Scalar>> {
    if b == [] then Some([])
    else match DecodeFirst(b)
      case None => None
      case Some((c, n)) =>
        match Decode(b[n..])
        case None => None
        case Some(rest) => Some([c] + rest)
  }

  lemma DecodeFirstEncoded(c: Scalar, rest: seq<Byte>)
    ensures DecodeFirst(EncodeScalar(c) + rest) == Some((c, |EncodeScalar(c)|))
  {
    var b := EncodeScalar(c) + rest;
    assert forall i | 0 <= i < |EncodeScalar(c)| :: b[i] == EncodeScalar(c)[i];
  }

  lemma EncodeFirstDecoded(b: seq<Byte>)
    requires b != [] && DecodeFirst(b).Some?
    ensures var (c, n) := DecodeFirst(b).value; EncodeScalar(c) == b[..n]
  {
    var (c, n) := DecodeFirst(b).value;
    if n == 2 {
      JoinSplit(b[0] - 0xC0, b[1]);
    } else if n == 3 {
      JoinSplit(b[0] - 0xE0, b[1]);
      JoinSplit(Join(b[0] - 0xE0, b[1]), b[2]);
    } else if n == 4 {
      JoinSplit(b[0] - 0xF0, b[1]);
      JoinSplit(Join(b[0] - 0xF0, b[1]), b[2]);
      JoinSplit(Join(Join(b[0] - 0xF0, b[1]), b[2]), b[3]);
    }
  }

  lemma {:induction false} DecodeEncoded(text: seq<Scalar>)
    ensures Decode(Encode(text)) == Some(text)
  {
    if text != [] {
      DecodeEncoded(text[1..]);
      var first, rest := EncodeScalar(text[0]), Encode(text[1..]);
      DecodeFirstEncoded(text[0], rest);
      assert (first + rest)[|first|..] == rest;
      assert text == [text[0]] + text[1..];
    }
  }

  lemma EncodeCons(c: Scalar, rest: seq<Scalar>)
    ensures Encode([c] + rest) == EncodeScalar(c) + Encode(rest)
  {
    assert ([c] + rest)[1..] == rest;
  }

  /** What decoding takes off the front is the encoding of what it yields. */
  lemma DecodeSplits(b: seq<Byte>) returns (c: Scalar, n: nat)
    requires b != [] && Decode(b).Some?
    ensures 1 <= n <= |b| && EncodeScalar(c) == b[..n]
    ensures Decode(b[n..]).Some? && Decode(b).value == [c] + Decode(b[n..]).value
  {
    EncodeFirstDecoded(b);
    c, n := DecodeFirst(b).value.0, DecodeFirst(b).value.1;
  }

  lemma EncodeSplit(c: Scalar, rest: seq<Scalar>, head: seq<Byte>, tail: seq<Byte>, text: seq<Scalar>)
    requires EncodeScalar(c) == head && Encode(rest) == tail && text == [c] + rest
    ensures Encode(text) == head + tail
  {
    EncodeCons(c, rest);
  }

  /** Decoding accepts exactly the encodings. */
  lemma {:induction false} EncodeDecoded(b: seq<Byte>)
    requires Decode(b).Some?
    ensures Encode(Decode(b).value) == b
  {
    if b != [] {
      var c, n := DecodeSplits(b);
      EncodeDecoded(b[n..]);
      EncodeSplit(c, Decode(b[n..]).value, b[..n], b[n..], Decode(b).value);
      assert b == b[..n] + b[n..];
    }
  }

  lemma ConcatAssociative<T>(x: seq<T>, y: seq<T>, z: seq<T>)
    ensures x + (y + z) == (x + y) + z
  {
  }

  lemma EncodeConcatCons(c: Scalar, a: seq<Scalar>, b: seq<Scalar>)
    requires Encode(a + b) == Encode(a) + Encode(b)
    ensures Encode(([c] + a) + b) == Encode([c] + a) + Encode(b)
  {
    ConcatAssociative([c], a, b);
    EncodeCons(c, a + b);
    EncodeCons(c, a);
    ConcatAssociative(EncodeScalar(c), Encode(a), Encode(b));
  }

  lemma {:induction false} EncodeConcat(a: seq<Scalar>, b: seq<Scalar>)
    ensures Encode(a + b) == Encode(a) + Encode(b)
  {
    if a == [] {
      assert a + b == b;
    } else {
      EncodeConcat(a[1..], b);
      EncodeConcatCons(a[0], a[1..], b);
      assert a == [a[0]] + a[1..];
    }
  }

  /** Where the k-th character of `text` starts in its encoding. */
  function Offset(text: seq<Scalar>, k: nat): nat
    requires k <= |text|
  {
    |Encode(text[..k])|
  }

  lemma SuffixEncoding(text: seq<Scalar>, k: nat)
    requires k <= |text|
    ensures Offset(text, k) <= |Encode(text)| && Encode(text)[Offset(text, k)..] == Encode(text[k..])
    ensures |Encode(text[k..])| == |Encode(text)| - Offset(text, k)
  {
    assert text == text[..k] + text[k..];
    EncodeConcat(text[..k], text[k..]);
  }

  lemma CharacterAt(text: seq<Scalar>, k: nat)
    requires k < |text|
    ensures Offset(text, k + 1) == Offset(text, k) + |EncodeScalar(text[k])| <= |Encode(text)|
    ensures Encode(text)[Offset(text, k)..Offset(text, k + 1)] == EncodeScalar(text[k])
  {
    assert text[..k + 1] == text[..k] + [text[k]];
    EncodeConcat(text[..k], [text[k]]);
    assert Encode([text[k]]) == EncodeScalar(text[k]) + [];
    SuffixEncoding(text, k + 1);
    SuffixEncoding(text, k);
    assert text[k..][0] == text[k];
  }

  /** A byte that is no continuation byte starts a character. */
  lemma {:induction false} StartsCharacter(t: seq<Scalar>, p: nat) returns (k: nat)
    requires p < |Encode(t)| && !IsContinuation(Encode(t)[p])
    ensures k < |t| && Offset(t, k) == p
  {
    var first := EncodeScalar(t[0]);
    if p == 0 {
      k := 0;
      assert t[..0] == [];
    } else {
      assert Encode(t) == first + Encode(t[1..]);
      assert forall i | 1 <= i < |first| :: IsContinuation(Encode(t)[i]);
      k := StartsCharacter(t[1..], p - |first|);
      k := k + 1;
      assert t[..k] == [t[0]] + t[1..][..k - 1];
      assert t[..k][1..] == t[1..][..k - 1];
    }
  }

  lemma AsciiIsOneByte(c: Scalar, k: nat)
    requires k < |EncodeScalar(c)| && EncodeScalar(c)[k] < 0x80
    ensures k == 0 && EncodeScalar(c) == [c]
  {
  }

  /** A stretch of ASCII bytes encodes exactly those characters. */
  lemma {:induction false} AsciiWindow(t: seq<Scalar>, p: nat, n: nat) returns (k: nat)
    requires 0 < n && p + n <= |Encode(t)| && Ascii(Encode(t)[p..p + n])
    ensures k + n <= |t| && t[k..k + n] == Encode(t)[p..p + n]
    ensures p == 0 ==> k == 0
  {
    var first, rest, window := EncodeScalar(t[0]), Encode(t[1..]), Encode(t)[p..p + n];
    assert Encode(t) == first + rest;
    if p >= |first| {
      assert rest[p - |first|..p - |first| + n] == window;
      var j := AsciiWindow(t[1..], p - |first|, n);
      k := j + 1;
      assert t[k..k + n] == t[1..][j..j + n];
    } else {
      assert window[0] == first[p];
      AsciiIsOneByte(t[0], p);
      k := 0;
      AsciiHead(t[0], rest, window);
      if n > 1 {
        var j := AsciiWindow(t[1..], 0, n - 1);
      }
      assert t[..n] == [t[0]] + t[1..][..n - 1];
    }
  }

  /** A window that starts with a one-byte character. */
  lemma AsciiHead(c: Scalar, rest: seq<Byte>, window: seq<Byte>)
    requires window != [] && Ascii(window) && c < 0x80 && |window| - 1 <= |rest|
    requires window == ([c] + rest)[..|window|]
    ensures window == [c] + rest[..|window| - 1] && Ascii(rest[..|window| - 1])
  {
    var more := rest[..|window| - 1];
    assert window == [c] + more;
    assert forall i | 0 <= i < |more| :: more[i] == window[i + 1];
  }

  predicate Ascii(t: seq<int>) {
    forall i | 0 <= i < |t| :: 0 <= t[i] < 0x80
  }

  lemma {:induction false} AsciiEncodesItself(t: seq<Scalar>)
    requires Ascii(t)
    ensures Encode(t) == t
  {
    if t != [] {
      AsciiEncodesItself(t[1..]);
    }
  }

  /** Anything else takes more bytes than characters, some of them outside ASCII. */
  lemma {:induction false} EncodedLength(t: seq<Scalar>)
    ensures |Encode(t)| >= |t|
    ensures !Ascii(t) ==> |Encode(t)| > |t| && !Ascii(Encode(t))
  {
    if t != [] {
      var first, rest := EncodeScalar(t[0]), Encode(t[1..]);
      EncodedLength(t[1..]);
      assert Encode(t) == first + rest;
      if t[0] >= 0x80 {
        assert Encode(t)[0] == first[0] && first[0] >= 0x80;
      } else if !Ascii(rest) {
        var i :| 0 <= i < |rest| && rest[i] >= 0x80;
        assert Encode(t)[|first| + i] == rest[i];
      }
    }
  }
}
