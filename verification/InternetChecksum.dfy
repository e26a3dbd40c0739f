/** The Internet checksum of Util/libc/socket.c, compared with section 1 and section 4.1 of RFC 1071. */
module InternetChecksum {
  import opened Bytes

  type Word = w: int | 0 <= w < 65536

  // The C type `unsigned long` has 32 or 64 bits, depending on the platform; the model
  // takes the number of its values as a parameter.
  const ULONG_32 := 0x1_0000_0000
  const ULONG_64 := 0x1_0000_0000_0000_0000

  predicate IsUnsignedLong(values: nat) {
    values == ULONG_32 || values == ULONG_64
  }

  /** Unsigned arithmetic wraps around. */
  function Wrap(x: nat, ulong: nat): (r: nat)
    requires IsUnsignedLong(ulong)
    ensures r < ulong
    ensures x < ulong ==> r == x
  {
    if ulong == ULONG_32 then x % 0x1_0000_0000 else x % 0x1_0000_0000_0000_0000
  }

  lemma WrapAbsorbs(x: nat, y: nat, ulong: nat)
    requires IsUnsignedLong(ulong)
    ensures Wrap(Wrap(x, ulong) + y, ulong) == Wrap(x + y, ulong)
  {
    if ulong == ULONG_32 {
      WrapShift32(x % ULONG_32 + y, x / ULONG_32);
    } else {
      WrapShift64(x % ULONG_64 + y, x / ULONG_64);
    }
  }

  lemma WrapShift32(z: nat, q: nat)
    ensures (z + ULONG_32 * q) % ULONG_32 == z % ULONG_32
  {
    assert z + ULONG_32 * q == ULONG_32 * (z / ULONG_32 + q) + z % ULONG_32;
  }

  lemma WrapShift64(z: nat, q: nat)
    ensures (z + ULONG_64 * q) % ULONG_64 == z % ULONG_64
  {
    assert z + ULONG_64 * q == ULONG_64 * (z / ULONG_64 + q) + z % ULONG_64;
  }

  // ----- The terms that are summed -----

  function LoadWord(low: int, high: int): (w: Word)
    requires 0 <= low < 256 && 0 <= high < 256
  {
    low + 256 * high
  }

  /** The 16-bit terms of a buffer: little-endian words, a trailing odd byte counts as one term. */
  function Words(b: seq<Byte>): (ws: seq<Word>)
    ensures |ws| == (|b| + 1) / 2
  {
    if |b| == 0 then []
    else if |b| == 1 then [b[0]]
    else [LoadWord(b[0], b[1])] + Words(b[2..])
  }

  function Sum(ws: seq<Word>): (s: nat)
    ensures s <= 65535 * |ws|
  {
    if ws == [] then 0 else ws[0] + Sum(ws[1..])
  }

  // ----- Three ways to reduce a sum to 16 bits -----

  /** The high part added onto the low 16 bits. */
  function FoldOnce(s: nat): (r: nat)
    ensures s >= 65536 ==> r < s
  {
    s / 65536 + s % 65536
  }

  /** The fold of the C code: exactly two steps, then the complement truncated to 16 bits. */
  function TwoFold(s: nat): Word {
    var f := FoldOnce(s);
    var g := f + f / 65536;
    65535 - g % 65536
  }

  /** The fold of section 4.1 of RFC 1071: repeat until no carry remains. */
  function FoldAll(s: nat): Word {
    if s < 65536 then s else FoldAll(FoldOnce(s))
  }

  /** One's complement addition with end-around carry, section 1 of RFC 1071. */
  function OnesAdd(a: Word, b: Word): Word {
    if a + b < 65536 then a + b else a + b - 65535
  }

  function OnesSum(ws: seq<Word>): Word {
    if ws == [] then 0 else OnesAdd(ws[0], OnesSum(ws[1..]))
  }

  /** The checksum that RFC 1071 defines: the complement of the one's complement sum. */
  function RfcChecksum(b: seq<Byte>): Word {
    65535 - OnesSum(Words(b))
  }

  /** What the C code computes on a platform whose `unsigned long` has `ulong` values. */
  function CodeChecksum(b: seq<Byte>, ulong: nat): Word
    requires IsUnsignedLong(ulong)
  {
    TwoFold(Wrap(Sum(Words(b)), ulong))
  }

  method CheckSum(buffer: array<Byte>, size: int, ulong: nat) returns (r: Word)
    requires 0 <= size <= buffer.Length
    requires IsUnsignedLong(ulong)
    ensures r == CodeChecksum(buffer[..size], ulong)
    ensures (size + 1) / 2 <= ExactTerms(ulong) ==> r == RfcChecksum(buffer[..size])
  {
    var cksum := 0;
    var p, iSize := 0, size;
    ghost var b := buffer[..size];
    while iSize > 1
      invariant 0 <= iSize && p + iSize == size
      invariant 0 <= cksum < ulong
      invariant Remaining(cksum, b, p, ulong) == Wrap(Sum(Words(b)), ulong)
    {
      AddTerm(cksum, b, p, ulong);
      cksum := Wrap(cksum + LoadWord(buffer[p], buffer[p + 1]), ulong);
      p, iSize := p + 2, iSize - 2;
    }
    AddTail(cksum, b, p, ulong);
    if iSize != 0 {
      cksum := Wrap(cksum + buffer[p], ulong);
    }
    r := FoldAndComplement(cksum);
    ExactIfShort(b, ulong);
  }

  /** The last three statements of the C function. */
  method FoldAndComplement(sum: nat) returns (r: Word)
    ensures r == TwoFold(sum)
  {
    var cksum := sum / 65536 + sum % 65536;
    cksum := cksum + cksum / 65536;
    r := 65535 - cksum % 65536;
  }

  /** What the accumulator will hold once the terms from byte p on are added. */
  ghost function Remaining(cksum: nat, b: seq<Byte>, p: nat, ulong: nat): nat
    requires p <= |b| && IsUnsignedLong(ulong)
  {
    Wrap(cksum + Sum(Words(b[p..])), ulong)
  }

  lemma AddTerm(cksum: nat, b: seq<Byte>, p: nat, ulong: nat)
    requires p + 1 < |b| && IsUnsignedLong(ulong)
    ensures Remaining(Wrap(cksum + LoadWord(b[p], b[p + 1]), ulong), b, p + 2, ulong) == Remaining(cksum, b, p, ulong)
  {
    assert b[p..][2..] == b[p + 2..];
    FirstTerm(b[p..]);
    WrapAbsorbs(cksum + LoadWord(b[p], b[p + 1]), Sum(Words(b[p + 2..])), ulong);
  }

  lemma AddTail(cksum: nat, b: seq<Byte>, p: nat, ulong: nat)
    requires p <= |b| <= p + 1 && IsUnsignedLong(ulong)
    ensures Remaining(cksum, b, p, ulong) == Wrap(cksum + if p < |b| then b[p] else 0, ulong)
  {
    LastTerm(b[p..]);
  }

  lemma FirstTerm(b: seq<Byte>)
    requires |b| > 1
    ensures Sum(Words(b)) == LoadWord(b[0], b[1]) + Sum(Words(b[2..]))
  {
    assert Words(b)[1..] == Words(b[2..]);
  }

  lemma LastTerm(b: seq<Byte>)
    requires |b| <= 1
    ensures Sum(Words(b)) == if |b| == 1 then b[0] else 0
  {
    if |b| == 1 {
      assert Words(b) == [b[0]];
      assert Words(b)[1..] == [];
    }
  }

  // ----- The value of the full fold -----

  /** Folding subtracts a multiple of 65535, and only zero folds to zero. */
  lemma {:induction false} FoldValue(s: nat) returns (q: nat)
    ensures s == FoldAll(s) + 65535 * q
    ensures FoldAll(s) == 0 <==> s == 0
  {
    if s < 65536 {
      q := 0;
    } else {
      q := FoldValue(FoldOnce(s));
      q := q + s / 65536;
    }
  }

  /** The fold of s is the only word that is congruent to s and zero exactly when s is. */
  lemma FoldUnique(s: nat, w: Word, q: int)
    requires s == w + 65535 * q
    requires w == 0 <==> s == 0
    ensures FoldAll(s) == w
  {
    var q' := FoldValue(s);
  }

  /** Summing first and folding afterwards is one's complement summation. */
  lemma {:induction false} DeferredCarries(ws: seq<Word>)
    ensures OnesSum(ws) == FoldAll(Sum(ws))
  {
    if ws != [] {
      DeferredCarries(ws[1..]);
      FoldOfAddition(ws[0], Sum(ws[1..]));
    }
  }

  lemma FoldOfAddition(w: Word, s: nat)
    ensures OnesAdd(w, FoldAll(s)) == FoldAll(w + s)
  {
    var q := FoldValue(s);
    var r := OnesAdd(w, FoldAll(s));
    FoldUnique(w + s, r, if w + FoldAll(s) < 65536 then q else q + 1);
  }

  // ----- When two folds are enough -----

  /**
   * Over every sum that an int-sized buffer can produce, two folds equal the full fold
   * exactly when the second fold itself produces no carry.
   */
  lemma TwoFoldExactIff(s: nat)
    requires s < 0x4000_0000_0000
    ensures TwoFold(s) == 65535 - FoldAll(s) <==> FoldOnce(FoldOnce(s)) < 65536
  {
    var t := FoldOnce(FoldOnce(s));
    TwoFoldLow(s);
    FoldAllTwice(s);
    FoldOnceBelow(s, 0x4000_0000);
    FoldOnceBelow(FoldOnce(s), 0x8000);
    FoldAllSmall(t);
  }

  lemma TwoFoldLow(s: nat)
    ensures TwoFold(s) == 65535 - FoldOnce(FoldOnce(s)) % 65536
  {
    var f := FoldOnce(s);
    LowBits(f);
  }

  lemma LowBits(f: nat)
    ensures (f + f / 65536) % 65536 == FoldOnce(f) % 65536
  {
    var h := f / 65536;
    assert f + h == FoldOnce(f) + 65536 * h;
    LowBitsShift(FoldOnce(f), h);
  }

  lemma LowBitsShift(z: nat, q: nat)
    ensures (z + 65536 * q) % 65536 == z % 65536
  {
    assert z + 65536 * q == 65536 * (z / 65536 + q) + z % 65536;
  }

  lemma FoldAllTwice(s: nat)
    ensures FoldAll(s) == FoldAll(FoldOnce(FoldOnce(s)))
  {
    FoldAllOnce(s);
    FoldAllOnce(FoldOnce(s));
  }

  lemma FoldAllOnce(s: nat)
    ensures FoldAll(s) == FoldAll(FoldOnce(s))
  {
    assert s < 65536 ==> FoldOnce(s) == s;
  }

  lemma FoldOnceBelow(s: nat, k: nat)
    requires s < 65536 * k + 65536
    ensures FoldOnce(s) <= k + 65535
  {
    assert s / 65536 <= k;
  }

  lemma FoldAllSmall(t: nat)
    requires t < 131071
    ensures FoldAll(t) == if t < 65536 then t else t - 65535
  {
    if t >= 65536 {
      assert FoldOnce(t) == 1 + (t - 65536);
      FoldAllOnce(t);
      assert FoldOnce(t) < 65536 || FoldOnce(t) == 65536;
    }
  }

  /** The number of terms up to which the C code is exact for every buffer. */
  function ExactTerms(ulong: nat): nat {
    if ulong == ULONG_32 then 65537 else 65538
  }

  /** Every sum below 2^32 + 65535 is folded exactly, and that bound is tight. */
  lemma FoldBoundIsTight(s: nat)
    ensures s < ULONG_32 + 65535 ==> TwoFold(s) == 65535 - FoldAll(s)
    ensures s == ULONG_32 + 65535 ==> TwoFold(s) != 65535 - FoldAll(s)
  {
    if s <= ULONG_32 + 65535 {
      TwoFoldExactIff(s);
    }
  }

  lemma ExactBelowLimit(b: seq<Byte>, ulong: nat)
    requires IsUnsignedLong(ulong)
    requires (|b| + 1) / 2 <= ExactTerms(ulong)
    ensures CodeChecksum(b, ulong) == RfcChecksum(b)
    ensures Sum(Words(b)) < ulong
    ensures CodeChecksum(b, ulong) == 65535 - FoldAll(Sum(Words(b)))
  {
    var s := Sum(Words(b));
    assert s <= 65535 * |Words(b)| <= 65535 * ExactTerms(ulong);
    FoldBoundIsTight(s);
    DeferredCarries(Words(b));
  }

  lemma ExactIfShort(b: seq<Byte>, ulong: nat)
    requires IsUnsignedLong(ulong)
    ensures (|b| + 1) / 2 <= ExactTerms(ulong) ==> CodeChecksum(b, ulong) == RfcChecksum(b)
  {
    if (|b| + 1) / 2 <= ExactTerms(ulong) {
      ExactBelowLimit(b, ulong);
    }
  }

  /** A buffer of n bytes whose first k words are 0xFFFF, followed by the byte 1 and zeros. */
  function CarryWitness(k: nat, n: nat): seq<Byte>
    requires 2 * k < n
  {
    seq(n, i => if i < 2 * k then 255 else if i == 2 * k then 1 else 0)
  }

  lemma {:induction false} WitnessSum(k: nat, n: nat)
    requires 2 * k < n
    ensures Sum(Words(CarryWitness(k, n))) == 65535 * k + 1
  {
    var b := CarryWitness(k, n);
    if n == 1 {
      LastTerm(b);
    } else {
      FirstTerm(b);
      if k > 0 {
        assert b[2..] == CarryWitness(k - 1, n - 2);
        WitnessSum(k - 1, n - 2);
      } else {
        ZeroSum(b[2..]);
      }
    }
  }

  lemma {:induction false} ZeroSum(b: seq<Byte>)
    requires forall i :: 0 <= i < |b| ==> b[i] == 0
    ensures Sum(Words(b)) == 0
  {
    if |b| == 1 {
      assert Words(b) == [0];
      assert Sum([0]) == 0 + Sum([]);
    } else if |b| > 1 {
      ZeroSum(b[2..]);
    }
  }

  /**
   * The exact range of the two-step fold: the code agrees with RFC 1071 on all buffers of
   * n bytes if and only if they have at most ExactTerms terms.
   */
  lemma ExactForLengthIff(n: nat, ulong: nat)
    requires IsUnsignedLong(ulong)
    ensures (forall b: seq<Byte> | |b| == n :: CodeChecksum(b, ulong) == RfcChecksum(b))
            <==> (n + 1) / 2 <= ExactTerms(ulong)
  {
    if (n + 1) / 2 <= ExactTerms(ulong) {
      forall b: seq<Byte> | |b| == n
        ensures CodeChecksum(b, ulong) == RfcChecksum(b)
      {
        ExactBelowLimit(b, ulong);
      }
    } else {
      WitnessNotExact(n, ulong);
    }
  }

  lemma WitnessNotExact(n: nat, ulong: nat)
    requires IsUnsignedLong(ulong) && (n + 1) / 2 > ExactTerms(ulong)
    ensures 2 * ExactTerms(ulong) < n
    ensures var b := CarryWitness(ExactTerms(ulong), n); CodeChecksum(b, ulong) != RfcChecksum(b)
  {
    var b := CarryWitness(ExactTerms(ulong), n);
    WitnessSum(ExactTerms(ulong), n);
    DeferredCarries(Words(b));
    LostCarry(Sum(Words(b)), ulong);
  }

  /** The carry lost in the second fold, or in the accumulator itself. */
  lemma LostCarry(s: nat, ulong: nat)
    requires IsUnsignedLong(ulong) && s == 65535 * ExactTerms(ulong) + 1
    ensures TwoFold(Wrap(s, ulong)) != 65535 - FoldAll(s)
  {
    if ulong == ULONG_64 {
      assert s == ULONG_32 + 65535;
      FoldBoundIsTight(s);
    } else {
      assert s == ULONG_32;
      FoldUnique(s, 1, 65537);
      assert Wrap(s, ulong) == 0 && TwoFold(0) == 65535;
    }
  }

  // ----- Storing the checksum and checking it on the receiving side -----

  function StoreWord(b: seq<Byte>, o: nat, w: Word): (r: seq<Byte>)
    requires o + 1 < |b|
    ensures |r| == |b|
  {
    b[o := w % 256][o + 1 := w / 256]
  }

  lemma {:induction false} StoredWord(b: seq<Byte>, o: nat, w: Word)
    requires o % 2 == 0 && o + 1 < |b|
    ensures Words(StoreWord(b, o, w)) == Words(b)[o / 2 := w]
  {
    var r := StoreWord(b, o, w);
    if o == 0 {
      assert r[2..] == b[2..];
    } else {
      assert r[2..] == StoreWord(b[2..], o - 2, w);
      StoredWord(b[2..], o - 2, w);
    }
  }

  lemma {:induction false} SumOfUpdate(ws: seq<Word>, i: nat, w: Word)
    requires i < |ws|
    ensures Sum(ws[i := w]) == Sum(ws) - ws[i] + w
  {
    if i > 0 {
      assert ws[i := w][1..] == ws[1..][i - 1 := w];
      SumOfUpdate(ws[1..], i - 1, w);
    } else {
      assert ws[0 := w][1..] == ws[1..];
    }
  }

  lemma {:induction false} WordAt(b: seq<Byte>, i: nat)
    requires 2 * i + 1 < |b|
    ensures Words(b)[i] == LoadWord(b[2 * i], b[2 * i + 1])
  {
    if i > 0 {
      WordAt(b[2..], i - 1);
    }
  }

  /** Storing the checksum in a zeroed word makes the receiver's run return 0. */
  lemma ReceiverCheck(b: seq<Byte>, o: nat, ulong: nat)
    requires IsUnsignedLong(ulong) && (|b| + 1) / 2 <= ExactTerms(ulong)
    requires o % 2 == 0 && o + 1 < |b| && b[o] == 0 && b[o + 1] == 0
    ensures CodeChecksum(StoreWord(b, o, CodeChecksum(b, ulong)), ulong) == 0
  {
    var c := CodeChecksum(b, ulong);
    var r := StoreWord(b, o, c);
    var rest := SumAfterStore(b, o, c);
    ExactBelowLimit(b, ulong);
    ExactBelowLimit(r, ulong);
    assert rest == Sum(Words(b));
    FoldWithComplement(rest);
  }

  /** A sum and the complement of its fold fold to all ones. */
  lemma FoldWithComplement(s: nat)
    ensures FoldAll(s + (65535 - FoldAll(s))) == 65535
  {
    var q := FoldValue(s);
    FoldUnique(s + (65535 - FoldAll(s)), 65535, q);
  }

  lemma SumAfterStore(b: seq<Byte>, o: nat, w: Word) returns (rest: nat)
    requires o % 2 == 0 && o + 1 < |b|
    ensures Sum(Words(b)) == rest + LoadWord(b[o], b[o + 1])
    ensures Sum(Words(StoreWord(b, o, w))) == rest + w
  {
    var i := o / 2;
    assert o == 2 * i;
    StoredWord(b, o, w);
    WordAt(b, i);
    SumOfUpdate(Words(b), i, w);
    TermBelowSum(Words(b), i);
    rest := Sum(Words(b)) - LoadWord(b[o], b[o + 1]);
  }

  lemma {:induction false} TermBelowSum(ws: seq<Word>, i: nat)
    requires i < |ws|
    ensures ws[i] <= Sum(ws)
  {
    if i > 0 {
      TermBelowSum(ws[1..], i - 1);
    }
  }

  // ----- Byte order -----

  function Swap(w: Word): Word {
    w % 256 * 256 + w / 256
  }

  /** Swap the two bytes of every word of an even-length buffer. */
  function SwapBytes(b: seq<Byte>): (r: seq<Byte>)
    requires |b| % 2 == 0
    ensures |r| == |b|
  {
    if b == [] then [] else [b[1], b[0]] + SwapBytes(b[2..])
  }

  lemma {:induction false} SwappedSum(b: seq<Byte>) returns (m: nat)
    requires |b| % 2 == 0
    ensures Sum(Words(SwapBytes(b))) + 65535 * m == 256 * Sum(Words(b))
    ensures Sum(Words(SwapBytes(b))) == 0 <==> Sum(Words(b)) == 0
  {
    if b == [] {
      m := 0;
    } else {
      m := SwappedSum(b[2..]);
      m := m + b[1];
      assert SwapBytes(b)[2..] == SwapBytes(b[2..]);
      FirstTerm(b);
      FirstTerm(SwapBytes(b));
    }
  }

  /** Byte-order independence, section 2(B) of RFC 1071. */
  lemma ByteOrderIndependence(b: seq<Byte>, ulong: nat)
    requires IsUnsignedLong(ulong) && (|b| + 1) / 2 <= ExactTerms(ulong)
    requires |b| % 2 == 0
    ensures CodeChecksum(SwapBytes(b), ulong) == Swap(CodeChecksum(b, ulong))
  {
    var m := SwappedSum(b);
    SwappedFold(Sum(Words(b)), Sum(Words(SwapBytes(b))), m);
    SwappedChecksum(b, SwapBytes(b), ulong);
  }

  lemma SwappedChecksum(a: seq<Byte>, b: seq<Byte>, ulong: nat)
    requires IsUnsignedLong(ulong)
    requires (|a| + 1) / 2 <= ExactTerms(ulong) && (|b| + 1) / 2 <= ExactTerms(ulong)
    requires FoldAll(Sum(Words(b))) == Swap(FoldAll(Sum(Words(a))))
    ensures CodeChecksum(b, ulong) == Swap(CodeChecksum(a, ulong))
  {
    ExactBelowLimit(a, ulong);
    ExactBelowLimit(b, ulong);
    SwapComplement(CodeChecksum(a, ulong), FoldAll(Sum(Words(a))));
  }

  lemma SwappedFold(s: nat, t: nat, m: nat)
    requires t + 65535 * m == 256 * s
    requires t == 0 <==> s == 0
    ensures FoldAll(t) == Swap(FoldAll(s))
  {
    var q := FoldValue(s);
    FoldUnique(t, Swap(FoldAll(s)), FoldAll(s) / 256 + 256 * q - m);
  }

  lemma SwapComplement(c: Word, w: Word)
    requires c == 65535 - w
    ensures Swap(c) == 65535 - Swap(w)
  {
    assert c / 256 == 255 - w / 256;
  }

  // ----- What the checksum detects -----

  /** Reordering whole words never changes the checksum, whatever the length. */
  lemma WordOrderIrrelevant(a: seq<Byte>, b: seq<Byte>, ulong: nat)
    requires IsUnsignedLong(ulong)
    requires multiset(Words(a)) == multiset(Words(b))
    ensures CodeChecksum(a, ulong) == CodeChecksum(b, ulong)
  {
    SumOfPermutation(Words(a), Words(b));
  }

  lemma {:induction false} SumOfPermutation(a: seq<Word>, b: seq<Word>)
    requires multiset(a) == multiset(b)
    ensures Sum(a) == Sum(b)
  {
    if a == [] {
      assert |multiset(b)| == 0;
    } else {
      assert a[0] in multiset(b);
      var i :| 0 <= i < |b| && b[i] == a[0];
      var b' := b[..i] + b[i + 1..];
      RemoveOne(a, b, i);
      SumOfPermutation(a[1..], b');
      SumOfAppend(b[..i], [b[i]] + b[i + 1..]);
      SumOfAppend(b[..i], b[i + 1..]);
      assert b == b[..i] + ([b[i]] + b[i + 1..]);
    }
  }

  lemma RemoveOne(a: seq<Word>, b: seq<Word>, i: nat)
    requires a != [] && i < |b| && a[0] == b[i] && multiset(a) == multiset(b)
    ensures multiset(a[1..]) == multiset(b[..i] + b[i + 1..])
  {
    assert a == [a[0]] + a[1..];
    assert b == b[..i] + [b[i]] + b[i + 1..];
    assert multiset(a[1..]) == multiset(a) - multiset{a[0]};
    assert multiset(b[..i] + b[i + 1..]) == multiset(b) - multiset{b[i]};
  }

  lemma {:induction false} SumOfAppend(a: seq<Word>, b: seq<Word>)
    ensures Sum(a + b) == Sum(a) + Sum(b)
  {
    if a == [] {
      assert a + b == b;
    } else {
      assert (a + b)[1..] == a[1..] + b;
      SumOfAppend(a[1..], b);
    }
  }

  /** One word is 0x0000 and the other 0xFFFF, the two zeros of one's complement. */
  predicate ZeroAndOnes(v: Word, w: Word) {
    (v == 0 && w == 65535) || (v == 65535 && w == 0)
  }

  /**
   * Overwriting one word goes unnoticed exactly when the word keeps its value, or changes
   * between 0x0000 and 0xFFFF while some other word is non-zero.
   */
  lemma OneWordChangeIff(b: seq<Byte>, o: nat, w: Word, ulong: nat)
    requires IsUnsignedLong(ulong) && (|b| + 1) / 2 <= ExactTerms(ulong)
    requires o % 2 == 0 && o + 1 < |b|
    ensures var v := LoadWord(b[o], b[o + 1]);
            CodeChecksum(StoreWord(b, o, w), ulong) == CodeChecksum(b, ulong) <==>
            w == v || (ZeroAndOnes(v, w) && Sum(Words(b)) > v)
  {
    var v := LoadWord(b[o], b[o + 1]);
    var rest := SumAfterStore(b, o, w);
    SameChecksumIff(b, StoreWord(b, o, w), ulong);
    SameFoldIff(rest, v, w);
  }

  lemma SameChecksumIff(a: seq<Byte>, b: seq<Byte>, ulong: nat)
    requires IsUnsignedLong(ulong)
    requires (|a| + 1) / 2 <= ExactTerms(ulong) && (|b| + 1) / 2 <= ExactTerms(ulong)
    ensures CodeChecksum(a, ulong) == CodeChecksum(b, ulong) <==> FoldAll(Sum(Words(a))) == FoldAll(Sum(Words(b)))
  {
    ExactBelowLimit(a, ulong);
    ExactBelowLimit(b, ulong);
  }

  lemma SameFoldIff(rest: nat, v: Word, w: Word)
    ensures FoldAll(rest + v) == FoldAll(rest + w) <==> w == v || (ZeroAndOnes(v, w) && rest > 0)
  {
    if v <= w {
      SameFoldUpIff(rest, v, w);
    } else {
      SameFoldUpIff(rest, w, v);
    }
  }

  lemma SameFoldUpIff(rest: nat, v: Word, w: Word)
    requires v <= w
    ensures FoldAll(rest + v) == FoldAll(rest + w) <==> w == v || (v == 0 && w == 65535 && rest > 0)
  {
    if v < w {
      var a, b := rest + v, rest + w;
      var p := FoldValue(a);
      if v == 0 && w == 65535 && rest > 0 {
        FoldUnique(b, FoldAll(a), p + 1);
      } else {
        var q := FoldValue(b);
        if FoldAll(a) == FoldAll(b) {
          SameResidue(a, b, FoldAll(a), p, q);
        }
      }
    }
  }

  lemma SameResidue(a: nat, b: nat, f: nat, p: nat, q: nat)
    requires a < b <= a + 65535
    requires a == f + 65535 * p && b == f + 65535 * q
    ensures b == a + 65535
  {
    assert b - a == 65535 * q - 65535 * p;
  }
}
