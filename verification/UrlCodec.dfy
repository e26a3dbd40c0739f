/** The form URL encoder and decoder of Util/libc/code.c. */
module UrlCodec {
  import opened Bytes
  import opened Sequences

  const SPACE: Byte := 32
  const PERCENT: Byte := 37
  const PLUS: Byte := 43
  const DIGIT_ZERO: Byte := 48

  predicate IsUpper(ch: Byte) { 65 <= ch <= 90 }

  predicate IsLower(ch: Byte) { 97 <= ch <= 122 }

  predicate IsDigit(ch: Byte) { 48 <= ch <= 57 }

  predicate IsAlphanumeric(ch: Byte) { IsUpper(ch) || IsLower(ch) || IsDigit(ch) }

  /** The bytes written as a percent escape: everything but alphanumerics and the space. */
  predicate IsEscaped(ch: Byte) { !IsAlphanumeric(ch) && ch != SPACE }

  predicate IsHexDigit(ch: Byte) { IsDigit(ch) || 97 <= ch <= 102 || 65 <= ch <= 70 }

  /** The digits that the format %02X writes. */
  predicate IsUpperHexDigit(ch: Byte) { IsDigit(ch) || 65 <= ch <= 70 }

  function HexValue(ch: Byte): (v: int)
    requires IsHexDigit(ch)
    ensures 0 <= v < 16
  {
    if IsDigit(ch) then ch - 48 else if IsUpper(ch) then ch - 55 else ch - 87
  }

  function UpperHexDigit(v: int): (ch: Byte)
    requires 0 <= v < 16
    ensures IsUpperHexDigit(ch) && HexValue(ch) == v
  {
    if v < 10 then 48 + v else 55 + v
  }

  // ----- Specification -----

  function EncodeByte(ch: Byte): (t: seq<Byte>)
    ensures |t| == if IsEscaped(ch) then 3 else 1
  {
    if IsAlphanumeric(ch) then [ch]
    else if ch == SPACE then [PLUS]
    else [PERCENT, UpperHexDigit(ch / 16), UpperHexDigit(ch % 16)]
  }

  function Encode(s: seq<Byte>): seq<Byte> {
    if s == [] then [] else EncodeByte(s[0]) + Encode(s[1..])
  }

  function EscapeValue(high: Byte, low: Byte): Byte
    requires IsHexDigit(high) && IsHexDigit(low)
  {
    16 * HexValue(high) + HexValue(low)
  }

  /** Whether a text starts with a percent sign and two hexadecimal digits. */
  predicate StartsWithEscape(t: seq<Byte>) {
    |t| >= 3 && t[0] == PERCENT && IsHexDigit(t[1]) && IsHexDigit(t[2])
  }

  function Decode(t: seq<Byte>): (s: seq<Byte>)
    ensures |s| <= |t|
  {
    if t == [] then []
    else if t[0] == PLUS then [SPACE] + Decode(t[1..])
    else if StartsWithEscape(t) then [EscapeValue(t[1], t[2])] + Decode(t[3..])
    else if t[0] == PERCENT then Decode(t[1..])
    else [t[0]] + Decode(t[1..])
  }

  function EscapedCount(s: seq<Byte>): nat {
    if s == [] then 0 else (if IsEscaped(s[0]) then 1 else 0) + EscapedCount(s[1..])
  }

  // ----- The encoder -----

  /**
   * The destination, if there is one, has room for the text and a NUL, holds the first j
   * bytes of the text, and is unchanged after that room.
   */
  ghost predicate Filled(dst: array?<Byte>, text: seq<Byte>, j: nat, tail: seq<Byte>)
    reads dst
  {
    && j <= |text|
    && (dst != null ==> |text| < dst.Length && dst[..j] == text[..j] && dst[|text| + 1..] == tail)
  }

  /** Store one byte when there is a destination. */
  method Put(dst: array?<Byte>, j: nat, ch: Byte, ghost text: seq<Byte>, ghost tail: seq<Byte>)
    requires Filled(dst, text, j, tail) && j < |text| && text[j] == ch
    modifies dst
    ensures Filled(dst, text, j + 1, tail)
    ensures dst != null ==> forall k :: j < k < dst.Length ==> dst[k] == old(dst[k])
  {
    if dst != null {
      dst[j] := ch;
      assert dst[..j + 1] == text[..j] + [text[j]];
    }
  }

  /** Store a three-byte escape and the NUL that sprintf leaves behind it. */
  method PutEscape(dst: array?<Byte>, j: nat, ch: Byte, ghost text: seq<Byte>, ghost tail: seq<Byte>)
    requires Filled(dst, text, j, tail) && j + 3 <= |text|
    requires text[j] == PERCENT && text[j + 1] == UpperHexDigit(ch / 16) && text[j + 2] == UpperHexDigit(ch % 16)
    modifies dst
    ensures Filled(dst, text, j + 3, tail)
    ensures dst != null ==> dst[j + 3] == 0
  {
    Put(dst, j, PERCENT, text, tail);
    Put(dst, j + 1, UpperHexDigit(ch / 16), text, tail);
    Put(dst, j + 2, UpperHexDigit(ch % 16), text, tail);
    if dst != null {
      dst[j + 3] := 0;
    }
  }

  /**
   * Encode the first n bytes of src. With a null destination only the length is computed;
   * otherwise the text and a NUL are written and every later byte of dst is left alone.
   */
  method UrlEncode(src: array<Byte>, n: nat, dst: array?<Byte>) returns (j: nat)
    requires n <= src.Length
    requires dst != null ==> dst != src && dst.Length > n + 2 * EscapedCount(src[..n])
    modifies dst
    ensures j == n + 2 * EscapedCount(src[..n])
    ensures dst != null ==> j < dst.Length && dst[..j] == Encode(src[..n]) && dst[j] == 0
    ensures dst != null ==> dst[j + 1..] == old(dst[j + 1..])
  {
    var i := 0;
    j := 0;
    ghost var s := src[..n];
    ghost var text := Encode(s);
    SizingIsExact(s);
    ghost var tail := if dst == null then [] else dst[|text| + 1..];
    assert s[0..] == s;
    while i < n
      invariant i <= n && src[..n] == s
      invariant j <= |text| && text[j..] == Encode(s[i..])
      invariant Filled(dst, text, j, tail)
    {
      var ch := src[i];
      EncodeStep(s, i, text, j);
      if IsUpper(ch) || IsLower(ch) || IsDigit(ch) {
        Put(dst, j, ch, text, tail);
        j := j + 1;
      } else if ch == SPACE {
        Put(dst, j, PLUS, text, tail);
        j := j + 1;
      } else {
        PutEscape(dst, j, ch, text, tail);
        j := j + 3;
      }
      i := i + 1;
    }
    Terminate(dst, j, text, tail);
  }

  /** Store the final NUL when there is a destination. */
  method Terminate(dst: array?<Byte>, j: nat, ghost text: seq<Byte>, ghost tail: seq<Byte>)
    requires Filled(dst, text, j, tail) && j == |text|
    modifies dst
    ensures dst != null ==> j < dst.Length && dst[..j] == text && dst[j] == 0 && dst[j + 1..] == tail
  {
    if dst != null {
      dst[j] := 0;
    }
  }

  /** One round of the encoder: what it emits and where it goes on. */
  lemma EncodeStep(s: seq<Byte>, i: nat, all: seq<Byte>, j: nat)
    requires i < |s| && j <= |all| && all[j..] == Encode(s[i..])
    ensures IsAlphanumeric(s[i]) ==> j < |all| && all[j] == s[i] && all[j + 1..] == Encode(s[i + 1..])
    ensures s[i] == SPACE ==> j < |all| && all[j] == PLUS && all[j + 1..] == Encode(s[i + 1..])
    ensures IsEscaped(s[i]) ==>
              j + 3 <= |all| && all[j + 3..] == Encode(s[i + 1..]) && all[j] == PERCENT
              && all[j + 1] == UpperHexDigit(s[i] / 16) && all[j + 2] == UpperHexDigit(s[i] % 16)
  {
    assert s[i..][1..] == s[i + 1..];
    var e := EncodeByte(s[i]);
    assert all[j..] == e + Encode(s[i + 1..]);
    assert forall k :: 0 <= k < |e| ==> all[j + k] == all[j..][k] == e[k];
    assert all[j + |e|..] == all[j..][|e|..];
    if IsEscaped(s[i]) {
      assert all[j + 1] == e[1] && all[j + 2] == e[2];
    }
  }

  /** The sizing run returns exactly the length of the text. */
  lemma {:induction false} SizingIsExact(s: seq<Byte>)
    ensures |Encode(s)| == |s| + 2 * EscapedCount(s)
  {
    if s != [] {
      SizingIsExact(s[1..]);
    }
  }

  // ----- The decoder -----

  /**
   * The value of a hexadecimal digit, or the character '0' for any other byte. Its code 48
   * is no value of a digit, so the caller can test for it.
   */
  method HexOrSentinel(ch: Byte) returns (v: Byte)
    ensures v != '0' as int <==> IsHexDigit(ch)
    ensures IsHexDigit(ch) ==> v == HexValue(ch)
  {
    if 48 <= ch <= 57 {
      v := ch - 48;
    } else if 97 <= ch <= 102 {
      v := ch - 97 + 10;
    } else if 65 <= ch <= 70 {
      v := ch - 65 + 10;
    } else {
      v := DIGIT_ZERO;
    }
  }

  /**
   * Decode the first n bytes of src. The destination may be null (sizing), a separate
   * buffer, or src itself; the result is that of the same specification in all three cases.
   */
  method UrlDecode(src: array<Byte>, n: nat, dst: array?<Byte>) returns (j: nat)
    requires n <= src.Length
    requires dst != null ==> |Decode(src[..n])| < dst.Length
    modifies dst
    ensures j == |Decode(old(src[..n]))|
    ensures dst != null ==> dst[..j] == Decode(old(src[..n])) && dst[j] == 0
    ensures dst != null ==> dst[j + 1..] == old(dst[j + 1..])
  {
    var i := 0;
    j := 0;
    ghost var t := src[..n];
    ghost var text := Decode(t);
    ghost var tail := if dst == null then [] else dst[|text| + 1..];
    assert t[0..] == t;
    while i < n
      invariant j <= i <= n
      invariant Unread(src, t, i)
      invariant Pending(t, i, text, j)
      invariant Filled(dst, text, j, tail)
    {
      var ch := src[i];
      DecodeStep(t, i, text, j);
      ghost var i1, j1 := NextRead(t, i), if Emits(t, i) then j + 1 else j;
      if ch == PLUS {
        PutBehind(dst, j, SPACE, text, tail, src, t, i + 1);
        j := j + 1;
      } else if ch == PERCENT {
        var valid, value := ReadEscape(src, n, i, t);
        if valid {
          PutBehind(dst, j, value, text, tail, src, t, i + 3);
          j := j + 1;
          i := i + 2;
        }
      } else {
        PutBehind(dst, j, ch, text, tail, src, t, i + 1);
        j := j + 1;
      }
      i := i + 1;
      assert i == i1 && j == j1;
    }
    assert j == |text|;
    Terminate(dst, j, text, tail);
  }

  /** Decoding the rest of t from byte i on yields the rest of the text from byte j on. */
  ghost predicate Pending(t: seq<Byte>, i: nat, text: seq<Byte>, j: nat) {
    i <= |t| && j <= |text| && text[j..] == Decode(t[i..])
  }

  predicate EscapeAt(t: seq<Byte>, i: nat) {
    i + 2 < |t| && t[i] == PERCENT && IsHexDigit(t[i + 1]) && IsHexDigit(t[i + 2])
  }

  /** The value of the escape at position i, if both of its digits are there and valid. */
  method ReadEscape(src: array<Byte>, n: nat, i: nat, ghost t: seq<Byte>) returns (valid: bool, value: Byte)
    requires i < n == |t| && Unread(src, t, i) && t[i] == PERCENT
    ensures valid == EscapeAt(t, i)
    ensures valid ==> value == EscapeValue(t[i + 1], t[i + 2])
  {
    valid, value := false, 0;
    if i + 2 < n {
      var ch1 := HexOrSentinel(src[i + 1]);
      var ch2 := HexOrSentinel(src[i + 2]);
      if ch1 != DIGIT_ZERO && ch2 != DIGIT_ZERO {
        valid, value := true, 16 * (ch1 as int) + ch2;
      }
    }
  }

  /** The source still holds the original text t from byte i on. */
  ghost predicate Unread(src: array<Byte>, t: seq<Byte>, i: nat)
    reads src
  {
    |t| <= src.Length && forall k :: i <= k < |t| ==> src[k] == t[k]
  }

  /** Store one byte behind the read cursor, which is harmless even when dst is src. */
  method PutBehind(dst: array?<Byte>, j: nat, ch: Byte, ghost text: seq<Byte>, ghost tail: seq<Byte>,
                   ghost src: array<Byte>, ghost t: seq<Byte>, ghost next: nat)
    requires Filled(dst, text, j, tail) && j < |text| && text[j] == ch
    requires Unread(src, t, next) && j < next
    modifies dst
    ensures Filled(dst, text, j + 1, tail)
    ensures Unread(src, t, next)
  {
    Put(dst, j, ch, text, tail);
  }

  /** One round of the decoder: what it emits and where it goes on. */
  lemma DecodeStep(t: seq<Byte>, i: nat, text: seq<Byte>, j: nat)
    requires i < |t| && Pending(t, i, text, j)
    ensures Pending(t, NextRead(t, i), text, if Emits(t, i) then j + 1 else j)
    ensures Emits(t, i) ==> j < |text| && text[j] == Emitted(t, i)
  {
    assert t[i..][1..] == t[i + 1..];
    assert StartsWithEscape(t[i..]) == EscapeAt(t, i);
    if i + 2 < |t| {
      assert t[i..][3..] == t[i + 3..];
    }
    if j < |text| {
      assert text[j..][1..] == text[j + 1..];
    }
  }

  function NextRead(t: seq<Byte>, i: nat): nat {
    if EscapeAt(t, i) then i + 3 else i + 1
  }

  predicate Emits(t: seq<Byte>, i: nat)
    requires i < |t|
  {
    t[i] != PERCENT || EscapeAt(t, i)
  }

  function Emitted(t: seq<Byte>, i: nat): Byte
    requires i < |t| && Emits(t, i)
  {
    if t[i] == PLUS then SPACE else if EscapeAt(t, i) then EscapeValue(t[i + 1], t[i + 2]) else t[i]
  }

  // ----- The codec in characters -----

  /** The hexadecimal digits, in either case, and what they stand for. */
  lemma HexDigitTable(ch: Byte, v: nat)
    ensures v < 16 && (ch == "0123456789abcdef"[v] as int || ch == "0123456789ABCDEF"[v] as int)
            <==> IsHexDigit(ch) && HexValue(ch) == v
  {
    assert IsDigit(ch) ==> "0123456789abcdef"[ch - 48] as int == ch;
    assert 97 <= ch <= 102 ==> "0123456789abcdef"[ch - 87] as int == ch;
    assert 65 <= ch <= 70 ==> "0123456789ABCDEF"[ch - 55] as int == ch;
  }

  /**
   * What each byte is written as: a letter or a digit as itself, a space as a plus sign, and
   * any other as a percent sign and two upper-case hexadecimal digits.
   */
  lemma EncodedByte(v: Byte, rest: seq<Byte>)
    ensures var plain := 65 <= v <= 90 || 97 <= v <= 122 || 48 <= v <= 57;
            Encode([v] + rest)
            == (if plain then [v]
                else if v == ' ' as int then ['+' as int]
                else ['%' as int, "0123456789ABCDEF"[v / 16] as int, "0123456789ABCDEF"[v % 16] as int])
               + Encode(rest)
  {
    assert ([v] + rest)[1..] == rest;
    assert UpperHexDigit(v / 16) == "0123456789ABCDEF"[v / 16] as int;
    assert UpperHexDigit(v % 16) == "0123456789ABCDEF"[v % 16] as int;
  }

  /** An escape of a byte is decoded to it, with each of its digits in either case. */
  lemma DecodedEscape(v: Byte, high: Byte, low: Byte, rest: seq<Byte>)
    requires high == "0123456789abcdef"[v / 16] as int || high == "0123456789ABCDEF"[v / 16] as int
    requires low == "0123456789abcdef"[v % 16] as int || low == "0123456789ABCDEF"[v % 16] as int
    ensures Decode(['%' as int, high, low] + rest) == [v] + Decode(rest)
  {
    HexDigitTable(high, v / 16);
    HexDigitTable(low, v % 16);
    assert (['%' as int, high, low] + rest)[3..] == rest;
  }

  /** Every other byte is decoded alone; a percent sign without two digits behind it vanishes. */
  lemma DecodedByte(v: Byte, rest: seq<Byte>)
    requires v == '%' as int ==> |rest| < 2 || !IsHexDigit(rest[0]) || !IsHexDigit(rest[1])
    ensures Decode([v] + rest)
            == (if v == '+' as int then [' ' as int] else if v == '%' as int then [] else [v]) + Decode(rest)
  {
    assert ([v] + rest)[1..] == rest;
    assert [] + Decode(rest) == Decode(rest);
  }

  // ----- The codec laws -----

  /** Decoding an encoded prefix gives it back and continues with the rest of the text. */
  lemma {:induction false} RoundTripWithContinuation(s: seq<Byte>, t: seq<Byte>)
    ensures Decode(Encode(s) + t) == s + Decode(t)
  {
    if s == [] {
      assert Encode(s) + t == t;
    } else {
      Associate(EncodeByte(s[0]), Encode(s[1..]), t);
      DecodeOneByte(s[0], Encode(s[1..]) + t);
      RoundTripWithContinuation(s[1..], t);
      Associate([s[0]], s[1..], Decode(t));
      assert s == [s[0]] + s[1..];
    }
  }

  lemma DecodeOneByte(ch: Byte, rest: seq<Byte>)
    ensures Decode(EncodeByte(ch) + rest) == [ch] + Decode(rest)
  {
    var e := EncodeByte(ch);
    assert (e + rest)[|e|..] == rest;
    if IsEscaped(ch) {
      assert StartsWithEscape(e + rest);
    }
  }

  lemma {:induction false} RoundTrip(s: seq<Byte>)
    ensures Decode(Encode(s)) == s
  {
    RoundTripWithContinuation(s, []);
    assert Encode(s) + [] == Encode(s);
  }

  lemma {:induction false} EncodeInjective(a: seq<Byte>, b: seq<Byte>)
    requires Encode(a) == Encode(b)
    ensures a == b
  {
    RoundTrip(a);
    RoundTrip(b);
  }

  /**
   * One token of the encoder's language: an alphanumeric, a plus sign, or an upper-case
   * escape of a byte that is neither alphanumeric nor a space.
   */
  predicate IsToken(t: seq<Byte>) {
    || (|t| == 1 && (IsAlphanumeric(t[0]) || t[0] == PLUS))
    || (|t| == 3 && t[0] == PERCENT && IsUpperHexDigit(t[1]) && IsUpperHexDigit(t[2])
        && IsEscaped(EscapeValue(t[1], t[2])))
  }

  function Join(tokens: seq<seq<Byte>>): seq<Byte> {
    if tokens == [] then [] else tokens[0] + Join(tokens[1..])
  }

  /** A text is canonical when it can be split into tokens. */
  ghost predicate Canonical(t: seq<Byte>) {
    exists tokens: seq<seq<Byte>> :: Join(tokens) == t && forall k :: 0 <= k < |tokens| ==> IsToken(tokens[k])
  }

  lemma TokenRoundTrip(t: seq<Byte>, rest: seq<Byte>)
    requires IsToken(t)
    ensures |Decode(t + rest)| > 0
    ensures EncodeByte(Decode(t + rest)[0]) == t && Decode(t + rest)[1..] == Decode(rest)
  {
    assert (t + rest)[|t|..] == rest;
    if |t| == 3 {
      assert StartsWithEscape(t + rest);
      HexDigitsRoundTrip(t[1], t[2]);
    }
  }

  lemma HexDigitsRoundTrip(a: Byte, b: Byte)
    requires IsUpperHexDigit(a) && IsUpperHexDigit(b)
    ensures var v := EscapeValue(a, b);
            UpperHexDigit(v / 16) == a && UpperHexDigit(v % 16) == b
  {
    var v := EscapeValue(a, b);
    assert v / 16 == HexValue(a) && v % 16 == HexValue(b);
  }

  lemma {:induction false} CanonicalRoundTrip(tokens: seq<seq<Byte>>)
    requires forall k :: 0 <= k < |tokens| ==> IsToken(tokens[k])
    ensures Encode(Decode(Join(tokens))) == Join(tokens)
  {
    if tokens != [] {
      TokenRoundTrip(tokens[0], Join(tokens[1..]));
      CanonicalRoundTrip(tokens[1..]);
    }
  }

  lemma {:induction false} EncodedIsCanonical(s: seq<Byte>) returns (tokens: seq<seq<Byte>>)
    ensures Join(tokens) == Encode(s)
    ensures forall k :: 0 <= k < |tokens| ==> IsToken(tokens[k])
  {
    if s == [] {
      tokens := [];
    } else {
      tokens := EncodedIsCanonical(s[1..]);
      assert IsToken(EncodeByte(s[0]));
      tokens := [EncodeByte(s[0])] + tokens;
    }
  }

  /** The image of the encoder is exactly the canonical texts. */
  lemma CanonicalIffEncoded(t: seq<Byte>)
    ensures Canonical(t) <==> exists s :: Encode(s) == t
  {
    if Canonical(t) {
      CanonicalIffFixed(t);
      assert Encode(Decode(t)) == t;
    }
    if s :| Encode(s) == t {
      var tokens := EncodedIsCanonical(s);
    }
  }

  /** Re-encoding a decoded text gives the text back exactly on the canonical texts. */
  lemma CanonicalIffFixed(t: seq<Byte>)
    ensures Canonical(t) <==> Encode(Decode(t)) == t
  {
    if Canonical(t) {
      var tokens :| Join(tokens) == t && forall k :: 0 <= k < |tokens| ==> IsToken(tokens[k]);
      CanonicalRoundTrip(tokens);
    }
    if Encode(Decode(t)) == t {
      var tokens := EncodedIsCanonical(Decode(t));
    }
  }
}
