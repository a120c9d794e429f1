/** HttpBigNum, the arbitrary-precision chunk-size number of the HTTP/1.1
    readers: a vector of 64-bit limbs, most significant limb first.

    The in-place loops of `+=` and `-=` touch every limb position exactly once
    and read it before writing it, so each is modelled positionally: the digit
    written at position k (counted from the least significant end) depends only
    on the original limbs at k and on the carry coming in. */
module BigNum {
  import opened Wrappers
  import opened Power
  import opened Hex

  const BASE: nat := 0x1_0000_0000_0000_0000
  const MAX: nat := 0xFFFF_FFFF_FFFF_FFFF

  /** A `std::size_t` on the 64-bit platform the controller targets. */
  type Limb = x: int | 0 <= x < 0x1_0000_0000_0000_0000

  /** Every HttpBigNum the program builds has at least one limb (the default is {0}). */
  type BigNum = s: seq<Limb> | |s| > 0 witness [0]

  /** The number a limb vector denotes, most significant limb first. */
  function Value(s: seq<Limb>): nat
  {
    if |s| == 0 then 0 else Value(s[..|s| - 1]) * BASE + s[|s| - 1]
  }

  /** No leading zero limb (a lone zero limb is the number zero). */
  predicate Normalised(s: seq<Limb>)
  {
    |s| > 0 && (|s| == 1 || s[0] != 0)
  }

  /** Limb at position k counted from the least significant end; zero beyond the top. */
  function LimbAt(s: seq<Limb>, k: nat): Limb
  {
    if k < |s| then s[|s| - 1 - k] else 0
  }

  /** Value of the k least significant limbs. */
  function Low(s: seq<Limb>, k: nat): nat
  {
    if k >= |s| then Value(s) else Value(s[|s| - k..])
  }

  // ---------------------------------------------------------------------------
  // Arithmetic helpers, stated over plain integers so that the solver does not
  // see the 2^64 constant inside a product

  lemma Distrib(a: int, b: int, y: int, p: int)
    ensures (a * b + y) * p == a * (b * p) + y * p
  {
  }

  lemma MulAtLeast(a: int, p: int)
    requires a >= 1 && p >= 0
    ensures a * p >= p
  {
  }

  lemma MulZero(a: int, p: int)
    requires a >= 0 && p > 0
    ensures a * p == 0 <==> a == 0
  {
  }

  lemma ZeroTimes(a: int, p: int)
    requires a == 0
    ensures a * p == 0
  {
  }

  lemma MulLess(a: int, b: int, p: int)
    requires a < b && p > 0
    ensures a * p + p <= b * p
  {
    assert b * p - a * p == (b - a) * p;
    MulAtLeast(b - a, p);
  }

  /** A larger leading digit outweighs anything below it. */
  lemma LeadDominates(x: int, y: int, va: int, vb: int, p: int)
    requires x > y && 0 <= va < p && 0 <= vb < p
    ensures x * p + va > y * p + vb
  {
    MulLess(y, x, p);
  }

  lemma PowSplit(b: nat, e: nat, k: nat)
    requires k <= e
    ensures Pow(b, e) == Pow(b, e - k) * Pow(b, k)
  {
    PowAdd(b, e - k, k);
    assert e - k + k == e;
  }

  // ---------------------------------------------------------------------------
  // Value lemmas

  predicate AllZero(s: seq<Limb>)
  {
    forall i :: 0 <= i < |s| ==> s[i] == 0
  }

  lemma Pow16To2To64()
    ensures Pow(16, 16) == BASE
  {
    assert Pow(16, 4) == 0x1_0000;
    PowAdd(16, 4, 4);
    PowAdd(16, 8, 8);
  }

  lemma ValuePush(a: seq<Limb>, y: Limb)
    ensures Value(a + [y]) == Value(a) * BASE + y
  {
    assert (a + [y])[..|a|] == a;
  }

  lemma {:induction false} ValueAppend(a: seq<Limb>, b: seq<Limb>)
    ensures Value(a + b) == Value(a) * Pow(BASE, |b|) + Value(b)
    decreases |b|
  {
    if |b| == 0 {
      assert a + b == a;
    } else {
      var b' := b[..|b| - 1];
      var d := b[|b| - 1];
      assert a + b == (a + b') + [d];
      assert b == b' + [d];
      ValuePush(a + b', d);
      ValuePush(b', d);
      ValueAppend(a, b');
      Distrib(Value(a), Pow(BASE, |b'|), Value(b'), BASE);
      assert Pow(BASE, |b|) == Pow(BASE, |b'|) * BASE;
    }
  }

  lemma ValueSingle(x: Limb)
    ensures Value([x]) == x
  {
    assert [x][..0] == [];
  }

  lemma {:induction false} ValueBound(s: seq<Limb>)
    ensures Value(s) < Pow(BASE, |s|)
    decreases |s|
  {
    if |s| > 0 {
      ValueBound(s[..|s| - 1]);
      MulLess(Value(s[..|s| - 1]), Pow(BASE, |s| - 1), BASE);
    }
  }

  /** The leading limb carries weight BASE^(|s|-1). */
  lemma ValueLead(s: seq<Limb>)
    requires |s| > 0
    ensures Value(s) == s[0] * Pow(BASE, |s| - 1) + Value(s[1..])
  {
    assert s == [s[0]] + s[1..];
    ValueAppend([s[0]], s[1..]);
    ValueSingle(s[0]);
  }

  /** A normalised vector of n > 1 limbs is at least BASE^(n-1). */
  lemma NormalisedLower(s: seq<Limb>)
    requires Normalised(s) && |s| > 1
    ensures Value(s) >= Pow(BASE, |s| - 1)
  {
    ValueLead(s);
    MulAtLeast(s[0], Pow(BASE, |s| - 1));
  }

  /** A vector of n limbs worth at least BASE^(n-1) has no leading zero. */
  lemma NonzeroLead(s: seq<Limb>)
    requires |s| > 0 && Value(s) >= Pow(BASE, |s| - 1)
    ensures s[0] != 0
  {
    if s[0] == 0 {
      LeadingZeroUpper(s);
    }
  }

  /** A leading zero limb leaves the value below BASE^(|s|-1). */
  lemma LeadingZeroUpper(s: seq<Limb>)
    requires |s| > 0 && s[0] == 0
    ensures Value(s) == Value(s[1..]) && Value(s) < Pow(BASE, |s| - 1)
  {
    ValueLead(s);
    ValueBound(s[1..]);
  }

  lemma AllZeroTail(s: seq<Limb>)
    requires |s| > 0
    ensures AllZero(s) <==> s[0] == 0 && AllZero(s[1..])
  {
    if AllZero(s) {
      forall i | 0 <= i < |s[1..]| ensures s[1..][i] == 0 {
        assert s[1..][i] == s[i + 1];
      }
    }
    if s[0] == 0 && AllZero(s[1..]) {
      forall i | 0 <= i < |s| ensures s[i] == 0 {
        if i > 0 {
          assert s[i] == s[1..][i - 1];
        }
      }
    }
  }

  lemma {:induction false} AllZeroValue(s: seq<Limb>)
    ensures AllZero(s) <==> Value(s) == 0
    decreases |s|
  {
    if |s| > 0 {
      ValueLead(s);
      AllZeroValue(s[1..]);
      AllZeroTail(s);
      PowPositive(BASE, |s| - 1);
      MulZero(s[0], Pow(BASE, |s| - 1));
    }
  }

  lemma LowZero(s: seq<Limb>)
    ensures Low(s, 0) == 0
  {
    if |s| > 0 {
      assert s[|s|..] == [];
    }
  }

  lemma LowFull(s: seq<Limb>)
    ensures Low(s, |s|) == Value(s)
  {
  }

  /** Adding the next limb up to the low part. */
  lemma LowStep(s: seq<Limb>, k: nat)
    ensures Low(s, k + 1) == Low(s, k) + LimbAt(s, k) * Pow(BASE, k)
  {
    if k < |s| {
      var t := s[|s| - k - 1..];
      assert t == [s[|s| - 1 - k]] + s[|s| - k..];
      ValueAppend([s[|s| - 1 - k]], s[|s| - k..]);
      ValueSingle(s[|s| - 1 - k]);
      if k + 1 == |s| {
        assert t == s;
      }
    }
  }

  /** Splitting off the k least significant limbs. */
  lemma SplitValue(s: seq<Limb>, k: nat)
    requires k <= |s|
    ensures Value(s) == Value(s[..|s| - k]) * Pow(BASE, k) + Low(s, k)
  {
    assert s == s[..|s| - k] + s[|s| - k..];
    ValueAppend(s[..|s| - k], s[|s| - k..]);
    if k == |s| {
      assert s[..0] == [];
      assert s[0..] == s;
    }
  }

  lemma ValueMid(a: seq<Limb>, y: Limb, c: seq<Limb>)
    ensures Value(a + [y] + c) == Value(a) * BASE * Pow(BASE, |c|) + y * Pow(BASE, |c|) + Value(c)
  {
    var ay: seq<Limb> := a + [y];
    ValueAppend(ay, c);
    ValuePush(a, y);
    MidArith(Value(ay + c), Value(ay), Value(a), y, Pow(BASE, |c|), Value(c));
  }

  lemma MidArith(v: int, w: int, va: int, y: int, p: int, vc: int)
    requires v == w * p + vc && w == va * BASE + y
    ensures v == va * BASE * p + y * p + vc
  {
  }

  lemma PowNext(k: nat)
    ensures Pow(BASE, k + 1) == BASE * Pow(BASE, k)
  {
  }

  /** Overwriting the limb at position k (from the low end) with x. */
  lemma ValueUpdate(s: seq<Limb>, k: nat, x: Limb)
    requires k < |s|
    ensures Value(s[|s| - 1 - k := x]) + s[|s| - 1 - k] * Pow(BASE, k) == Value(s) + x * Pow(BASE, k)
  {
    var pos := |s| - 1 - k;
    assert s == s[..pos] + [s[pos]] + s[pos + 1..];
    assert s[pos := x] == s[..pos] + [x] + s[pos + 1..];
    ValueMid(s[..pos], s[pos], s[pos + 1..]);
    ValueMid(s[..pos], x, s[pos + 1..]);
  }

  // ---------------------------------------------------------------------------
  // Comparisons: length first, then limb-lexicographic (http-requests.cpp:27-126)

  /** Sign of the first differing limb of two equal-length vectors from index i on. */
  function LexCmp(a: seq<Limb>, b: seq<Limb>, i: nat): int
    requires |a| == |b| && i <= |a|
    decreases |a| - i
  {
    if i == |a| then 0
    else if a[i] > b[i] then 1
    else if a[i] < b[i] then -1
    else LexCmp(a, b, i + 1)
  }

  predicate Less(a: seq<Limb>, b: seq<Limb>)
  {
    if |b| > |a| then true else if |b| < |a| then false else LexCmp(a, b, 0) < 0
  }

  predicate LessEq(a: seq<Limb>, b: seq<Limb>)
  {
    if |b| > |a| then true else if |b| < |a| then false else LexCmp(a, b, 0) <= 0
  }

  predicate Greater(a: seq<Limb>, b: seq<Limb>)
  {
    if |b| > |a| then false else if |b| < |a| then true else LexCmp(a, b, 0) > 0
  }

  predicate GreaterEq(a: seq<Limb>, b: seq<Limb>)
  {
    if |b| > |a| then false else if |b| < |a| then true else LexCmp(a, b, 0) >= 0
  }

  predicate Equal(a: seq<Limb>, b: seq<Limb>)
  {
    |a| == |b| && LexCmp(a, b, 0) == 0
  }

  predicate NotEqual(a: seq<Limb>, b: seq<Limb>)
  {
    |a| != |b| || LexCmp(a, b, 0) != 0
  }

  lemma {:induction false} LexCmpFacts(a: seq<Limb>, b: seq<Limb>, i: nat)
    requires |a| == |b| && i <= |a|
    ensures -1 <= LexCmp(a, b, i) <= 1
    ensures LexCmp(b, a, i) == -LexCmp(a, b, i)
    ensures LexCmp(a, b, i) == 0 <==> a[i..] == b[i..]
    decreases |a| - i
  {
    if i < |a| {
      LexCmpFacts(a, b, i + 1);
      if a[i] == b[i] {
        assert a[i..] == [a[i]] + a[i + 1..];
        assert b[i..] == [b[i]] + b[i + 1..];
      } else {
        assert a[i..][0] != b[i..][0];
      }
    }
  }

  /** The six operators agree with one three-way comparison: exactly one of
      <, ==, > holds, <= is < or ==, >= is > or ==, != is not ==, and == is
      equality of the limb vectors. */
  lemma CompareTrichotomy(a: seq<Limb>, b: seq<Limb>)
    ensures (if Less(a, b) then 1 else 0) + (if Equal(a, b) then 1 else 0) + (if Greater(a, b) then 1 else 0) == 1
    ensures LessEq(a, b) <==> Less(a, b) || Equal(a, b)
    ensures GreaterEq(a, b) <==> Greater(a, b) || Equal(a, b)
    ensures NotEqual(a, b) <==> !Equal(a, b)
    ensures Equal(a, b) <==> a == b
    ensures Less(a, b) <==> Greater(b, a)
  {
    if |a| == |b| {
      LexCmpFacts(a, b, 0);
      assert a[0..] == a && b[0..] == b;
    }
  }

  /** On equal lengths the first differing limb decides the numeric order. */
  lemma {:induction false} LexCmpValue(a: seq<Limb>, b: seq<Limb>, i: nat)
    requires |a| == |b| && i <= |a|
    ensures LexCmp(a, b, i) < 0 <==> Value(a[i..]) < Value(b[i..])
    ensures LexCmp(a, b, i) == 0 <==> Value(a[i..]) == Value(b[i..])
    decreases |a| - i
  {
    if i == |a| {
      assert a[i..] == [] && b[i..] == [];
    } else {
      LexCmpValue(a, b, i + 1);
      var n := |a| - i - 1;
      var p := Pow(BASE, n);
      ValueLead(a[i..]);
      ValueLead(b[i..]);
      assert a[i..][1..] == a[i + 1..] && b[i..][1..] == b[i + 1..];
      ValueBound(a[i + 1..]);
      ValueBound(b[i + 1..]);
      var va, vb := Value(a[i + 1..]), Value(b[i + 1..]);
      if a[i] > b[i] {
        LeadDominates(a[i], b[i], va, vb, p);
      } else if a[i] < b[i] {
        LeadDominates(b[i], a[i], vb, va, p);
      } else {
        assert a[i..] == [a[i]] + a[i + 1..];
      }
    }
  }

  /** On normalised vectors the length-first comparison is numeric order. */
  lemma CompareNumeric(a: seq<Limb>, b: seq<Limb>)
    requires Normalised(a) && Normalised(b)
    ensures Less(a, b) <==> Value(a) < Value(b)
    ensures LessEq(a, b) <==> Value(a) <= Value(b)
    ensures Greater(a, b) <==> Value(a) > Value(b)
    ensures GreaterEq(a, b) <==> Value(a) >= Value(b)
    ensures Equal(a, b) <==> Value(a) == Value(b)
  {
    if |a| == |b| {
      LexCmpValue(a, b, 0);
      assert a[0..] == a && b[0..] == b;
    } else if |a| < |b| {
      ValueBound(a);
      NormalisedLower(b);
      PowMonotone(BASE, |a|, |b| - 1);
    } else {
      ValueBound(b);
      NormalisedLower(a);
      PowMonotone(BASE, |b|, |a| - 1);
    }
  }

  // ---------------------------------------------------------------------------
  // operator++ (http-requests.cpp:128-152)

  /** The do-while of `operator++` with the carry standing at position k
      (counted from the least significant end). */
  function IncFrom(s: seq<Limb>, k: nat): (r: seq<Limb>)
    requires k < |s|
    ensures |r| == |s| || |r| == |s| + 1
    decreases |s| - k
  {
    var pos := |s| - 1 - k;
    if s[pos] == MAX then
      if k + 1 < |s| then IncFrom(s[pos := 0], k + 1) else [1] + s[pos := 0]
    else s[pos := s[pos] + 1]
  }

  /** Setting a MAX limb at position k to zero takes MAX * BASE^k away. */
  lemma ClearMaxLimb(s: seq<Limb>, k: nat)
    requires k < |s| && s[|s| - 1 - k] == MAX
    ensures Value(s[|s| - 1 - k := 0]) + MAX * Pow(BASE, k) == Value(s)
  {
    ValueUpdate(s, k, 0);
  }

  /** Setting a zero limb at position k to MAX adds MAX * BASE^k. */
  lemma FillZeroLimb(s: seq<Limb>, k: nat)
    requires k < |s| && s[|s| - 1 - k] == 0
    ensures Value(s[|s| - 1 - k := MAX]) == Value(s) + MAX * Pow(BASE, k)
  {
    ValueUpdate(s, k, MAX);
  }

  /** Bumping a limb below MAX at position k adds BASE^k. */
  lemma BumpLimb(s: seq<Limb>, k: nat)
    requires k < |s| && s[|s| - 1 - k] < MAX
    ensures Value(s[|s| - 1 - k := s[|s| - 1 - k] + 1]) == Value(s) + Pow(BASE, k)
  {
    ValueUpdate(s, k, s[|s| - 1 - k] + 1);
  }

  /** Lowering a nonzero limb at position k takes BASE^k away. */
  lemma DropLimb(s: seq<Limb>, k: nat)
    requires k < |s| && s[|s| - 1 - k] != 0
    ensures Value(s[|s| - 1 - k := s[|s| - 1 - k] - 1]) + Pow(BASE, k) == Value(s)
  {
    ValueUpdate(s, k, s[|s| - 1 - k] - 1);
  }

  /** A carry (or borrow) of BASE^(k+1) after a MAX digit is a carry of BASE^k. */
  lemma CarryArith(v: int, vs: int, p: int, vr: int, bp: int)
    requires v + MAX * p == vs && bp == BASE * p
    ensures vr == v + bp ==> vr == vs + p
  {
  }

  lemma BorrowArith(v: int, vs: int, p: int, vr: int, bp: int)
    requires v == vs + MAX * p && vs >= p && bp == BASE * p
    ensures v >= bp
    ensures vr + bp == v ==> vr + p == vs
  {
  }

  /** The carry adds BASE^k. */
  lemma {:induction false} IncFromValue(s: seq<Limb>, k: nat)
    requires k < |s|
    ensures Value(IncFrom(s, k)) == Value(s) + Pow(BASE, k)
    decreases |s| - k
  {
    var pos := |s| - 1 - k;
    if s[pos] == MAX {
      var s' := s[pos := 0];
      ClearMaxLimb(s, k);
      if k + 1 < |s| {
        IncFromValue(s', k + 1);
        CarryArith(Value(s'), Value(s), Pow(BASE, k), Value(IncFrom(s', k + 1)), Pow(BASE, k + 1));
      } else {
        ValueAppend([1], s');
        ValueSingle(1);
        CarryArith(Value(s'), Value(s), Pow(BASE, k), Value([1] + s'), Pow(BASE, k + 1));
      }
    } else {
      BumpLimb(s, k);
    }
  }

  /** The vector grows only when every limb from position k up was MAX, and
      then the new top limb is 1; otherwise the top limb does not decrease. */
  lemma {:induction false} IncFromShape(s: seq<Limb>, k: nat)
    requires k < |s|
    ensures |IncFrom(s, k)| == |s| + 1 <==> (forall j :: 0 <= j <= |s| - 1 - k ==> s[j] == MAX)
    ensures |IncFrom(s, k)| == |s| + 1 ==> IncFrom(s, k)[0] == 1
    ensures |IncFrom(s, k)| == |s| ==> IncFrom(s, k)[0] >= s[0]
    decreases |s| - k
  {
    var pos := |s| - 1 - k;
    if s[pos] == MAX {
      var s' := s[pos := 0];
      if k + 1 < |s| {
        IncFromShape(s', k + 1);
        assert forall j :: 0 <= j < pos ==> s'[j] == s[j];
      }
    }
  }

  /** Pre-increment: adds one, growing by a limb only when every limb was MAX. */
  function Increment(s: BigNum): (r: BigNum)
    ensures Value(r) == Value(s) + 1
    ensures |r| == |s| + 1 <==> (forall j :: 0 <= j < |s| ==> s[j] == MAX)
    ensures |r| == |s| || |r| == |s| + 1
    ensures Normalised(s) ==> Normalised(r)
  {
    IncFromValue(s, 0);
    IncFromShape(s, 0);
    IncFrom(s, 0)
  }

  /** Post-increment: `tmp = ++(*this); return tmp;` returns the NEW value. */
  function PostIncrement(s: BigNum): (r: (BigNum, BigNum))
    ensures Value(r.0) == Value(s) + 1
    ensures r.1 == r.0
  {
    var n := Increment(s);
    (n, n)
  }

  // ---------------------------------------------------------------------------
  // operator-- (http-requests.cpp:154-180)

  /** The do-while of `operator--` with the borrow standing at position k.
      The flag tells whether the loop ended on the most significant limb,
      which is when the source strips leading zeros. */
  function DecFrom(s: seq<Limb>, k: nat): (r: (seq<Limb>, bool))
    requires k < |s|
    ensures |r.0| == |s|
    decreases |s| - k
  {
    var pos := |s| - 1 - k;
    if s[pos] == 0 then
      if k + 1 < |s| then DecFrom(s[pos := MAX], k + 1) else (s[pos := MAX], true)
    else (s[pos := s[pos] - 1], pos == 0)
  }

  /** The borrow takes BASE^k away when there is that much to take. */
  lemma {:induction false} DecFromValue(s: seq<Limb>, k: nat)
    requires k < |s|
    ensures Value(s) >= Pow(BASE, k) ==> Value(DecFrom(s, k).0) + Pow(BASE, k) == Value(s)
    decreases |s| - k
  {
    var pos := |s| - 1 - k;
    if s[pos] == 0 {
      var s' := s[pos := MAX];
      FillZeroLimb(s, k);
      if k + 1 < |s| {
        if Value(s) >= Pow(BASE, k) {
          BorrowArith(Value(s'), Value(s), Pow(BASE, k), Value(DecFrom(s', k + 1).0), Pow(BASE, k + 1));
          DecFromValue(s', k + 1);
        }
      } else {
        LeadingZeroUpper(s);
      }
    } else {
      DropLimb(s, k);
    }
  }

  /** The loop reaches the top limb exactly when every limb between it and
      position k is zero; an all-zero run becomes all MAX; limbs below
      position k are untouched. */
  lemma {:induction false} DecFromShape(s: seq<Limb>, k: nat)
    requires k < |s|
    ensures DecFrom(s, k).1 <==> (forall j :: 0 < j <= |s| - 1 - k ==> s[j] == 0)
    ensures !DecFrom(s, k).1 ==> DecFrom(s, k).0[0] == s[0]
    ensures DecFrom(s, k).1 && s[0] != 0 ==> DecFrom(s, k).0[0] == s[0] - 1
    ensures (forall j :: 0 <= j <= |s| - 1 - k ==> s[j] == 0) ==>
              (forall j :: 0 <= j <= |s| - 1 - k ==> DecFrom(s, k).0[j] == MAX)
    ensures forall j :: |s| - 1 - k < j < |s| ==> DecFrom(s, k).0[j] == s[j]
    decreases |s| - k
  {
    var pos := |s| - 1 - k;
    if s[pos] == 0 {
      var s' := s[pos := MAX];
      if k + 1 < |s| {
        DecFromShape(s', k + 1);
        assert forall j :: 0 <= j < pos ==> s'[j] == s[j];
      }
    }
  }

  /** `while(front() == 0) erase(begin());`: undefined (front() of an empty
      vector) when every limb is zero. */
  function StripAsWritten(s: seq<Limb>): (r: Result<BigNum>)
    ensures r.Failure? <==> AllZero(s)
    ensures r.Success? ==> Value(r.value) == Value(s) && r.value[0] != 0 && Normalised(r.value)
    decreases |s|
  {
    if |s| == 0 then Failure("front() of an empty vector")
    else if s[0] == 0 then
      LeadingZeroUpper(s);
      AllZeroTail(s);
      StripAsWritten(s[1..])
    else Success(s)
  }

  /** Leading-zero removal that keeps at least one limb. */
  function StripLeadingZeros(s: BigNum): (r: BigNum)
    ensures Value(r) == Value(s) && Normalised(r)
    ensures !AllZero(s) ==> StripAsWritten(s) == Success(r)
    decreases |s|
  {
    if |s| > 1 && s[0] == 0 then
      LeadingZeroUpper(s);
      AllZeroTail(s);
      StripLeadingZeros(s[1..])
    else s
  }

  /** Pre-decrement as written. Normalised numbers of at least two lose one;
      zero wraps round to all-MAX limbs; {1} reaches `front()` of an empty vector. */
  function DecrementAsWritten(s: BigNum): (r: Result<BigNum>)
    ensures Normalised(s) && Value(s) >= 2 ==> r.Success? && Value(r.value) == Value(s) - 1 && Normalised(r.value)
    ensures s == [1] ==> r.Failure?
    ensures Value(s) == 0 ==> r.Success? && |r.value| == |s| && (forall i :: 0 <= i < |s| ==> r.value[i] == MAX)
  {
    var (raw, top) := DecFrom(s, 0);
    DecFromValue(s, 0);
    DecFromShape(s, 0);
    AllZeroValue(s);
    AllZeroValue(raw);
    if top then
      assert s == [1] ==> AllZero(raw);
      StripAsWritten(raw)
    else
      Success(raw)
  }

  /** Corrected pre-decrement: the leading-zero strip stops at one limb. */
  function DecrementFixed(s: BigNum): (r: BigNum)
    ensures Normalised(s) && Value(s) >= 1 ==> Value(r) == Value(s) - 1 && Normalised(r)
    ensures DecrementAsWritten(s).Success? ==> DecrementAsWritten(s).value == r
    ensures s == [1] ==> r == [0]
  {
    var (raw, top) := DecFrom(s, 0);
    DecFromValue(s, 0);
    DecFromShape(s, 0);
    if top then StripLeadingZeros(raw) else raw
  }

  /** Post-decrement returns the NEW value, like post-increment. */
  function PostDecrementAsWritten(s: BigNum): (r: Result<(BigNum, BigNum)>)
    ensures r.Success? <==> DecrementAsWritten(s).Success?
    ensures r.Success? ==> r.value.1 == r.value.0 == DecrementAsWritten(s).value
  {
    var n :- DecrementAsWritten(s);
    Success((n, n))
  }

  // ---------------------------------------------------------------------------
  // operator+= (http-requests.cpp:182-262)

  lemma AddStepArith(base: int, v: int, d: int, p: int, bp: int, c: int, pr: int,
                     lowL: int, lowR: int, la: int, r1: int, carry: int, c2: int, ll: int, rr: int)
    requires bp == base * p
    requires v * bp + c * pr + (lowL + la * p) + (lowR + r1 * p) == ll + rr + c2 * bp
    requires d + c2 * base == la + r1 + carry
    ensures (v * base + d) * p + c * pr + lowL + lowR == ll + rr + carry * p
  {
    assert (v * base + d) * p == v * bp + d * p;
    assert (d + c2 * base) * p == (la + r1 + carry) * p;
    assert (d + c2 * base) * p == d * p + c2 * bp;
  }

  /** Positions k.. of the `+=` loop: the right-hand limb plus the incoming carry
      (wrapping, with a carry out), then added into the left-hand limb in place,
      or inserted at the front when the left-hand side has no limb there.
      Returns the digits written at positions k.. (most significant first) and
      the carry left over when the loop ends. */
  function AddDigits(lhs: seq<Limb>, rhs: seq<Limb>, k: nat, carry: nat): (r: (seq<Limb>, nat))
    requires k <= |rhs| && carry <= 1
    ensures |r.0| == |rhs| - k && r.1 <= 1
    decreases |rhs| - k
  {
    if k == |rhs| then ([], carry)
    else
      var r1 := rhs[|rhs| - 1 - k];
      var wrap1 := carry > 0 && carry > MAX - r1;
      var tmp: Limb := if wrap1 then r1 - (MAX - carry + 1) else r1 + carry;
      var c1: nat := if wrap1 then 1 else 0;
      var la := LimbAt(lhs, k);
      var wrap2 := k < |lhs| && tmp > 0 && tmp > MAX - la;
      var d: Limb := if k >= |lhs| then tmp else if wrap2 then la - (MAX - tmp + 1) else la + tmp;
      var c2: nat := if wrap2 then 1 else c1;
      var rest := AddDigits(lhs, rhs, k + 1, c2);
      (rest.0 + [d], rest.1)
  }

  /** The digits and carry out of positions k.. account for both operands' limbs there. */
  lemma {:induction false} AddDigitsValue(lhs: seq<Limb>, rhs: seq<Limb>, k: nat, carry: nat)
    requires k <= |rhs| && carry <= 1
    ensures var (ds, c) := AddDigits(lhs, rhs, k, carry);
            Value(ds) * Pow(BASE, k) + c * Pow(BASE, |rhs|) + Low(lhs, k) + Low(rhs, k)
            == Low(lhs, |rhs|) + Low(rhs, |rhs|) + carry * Pow(BASE, k)
    decreases |rhs| - k
  {
    if k < |rhs| {
      var r1 := rhs[|rhs| - 1 - k];
      var wrap1 := carry > 0 && carry > MAX - r1;
      var tmp: Limb := if wrap1 then r1 - (MAX - carry + 1) else r1 + carry;
      var c1: nat := if wrap1 then 1 else 0;
      var la := LimbAt(lhs, k);
      var wrap2 := k < |lhs| && tmp > 0 && tmp > MAX - la;
      var d: Limb := if k >= |lhs| then tmp else if wrap2 then la - (MAX - tmp + 1) else la + tmp;
      var c2: nat := if wrap2 then 1 else c1;
      assert d + c2 * BASE == la + r1 + carry;
      var rest := AddDigits(lhs, rhs, k + 1, c2);
      assert AddDigits(lhs, rhs, k, carry) == (rest.0 + [d], rest.1);
      AddDigitsValue(lhs, rhs, k + 1, c2);
      ValuePush(rest.0, d);
      LowStep(lhs, k);
      LowStep(rhs, k);
      AddStepArith(BASE, Value(rest.0), d, Pow(BASE, k), Pow(BASE, k + 1), rest.1, Pow(BASE, |rhs|),
                   Low(lhs, k), Low(rhs, k), la, r1, carry, c2, Low(lhs, |rhs|), Low(rhs, |rhs|));
    } else {
      assert Value([]) == 0;
    }
  }

  /** The limbs of `lhs` above the positions the `+=` loop visits. */
  function HighPart(lhs: seq<Limb>, n: nat): (h: seq<Limb>)
    ensures |h| == if |lhs| > n then |lhs| - n else 0
  {
    if |lhs| > n then lhs[..|lhs| - n] else []
  }

  lemma AddDigitsTotal(lhs: seq<Limb>, rhs: seq<Limb>)
    ensures var (ds, c) := AddDigits(lhs, rhs, 0, 0);
            Value(HighPart(lhs, |rhs|) + ds) + c * Pow(BASE, |rhs|) == Value(lhs) + Value(rhs)
  {
    var (ds, c) := AddDigits(lhs, rhs, 0, 0);
    var h, pr := HighPart(lhs, |rhs|), Pow(BASE, |rhs|);
    AddDigitsFromZero(lhs, rhs);
    ValueAppend(h, ds);
    HighSplit(lhs, |rhs|);
    TotalArith(Value(h), Value(ds), Value(h + ds), c, pr, Low(lhs, |rhs|), Value(lhs), Value(rhs));
  }

  /** The whole `+=` loop, started at the lowest limb with no carry. */
  lemma AddDigitsFromZero(lhs: seq<Limb>, rhs: seq<Limb>)
    ensures var (ds, c) := AddDigits(lhs, rhs, 0, 0);
            |ds| == |rhs| && Value(ds) + c * Pow(BASE, |rhs|) == Low(lhs, |rhs|) + Value(rhs)
  {
    AddDigitsValue(lhs, rhs, 0, 0);
    LowZero(lhs);
    LowZero(rhs);
    LowFull(rhs);
    assert Pow(BASE, 0) == 1;
  }

  /** The limbs above position n and the n low limbs make up the number. */
  lemma HighSplit(lhs: seq<Limb>, n: nat)
    ensures Value(lhs) == Value(HighPart(lhs, n)) * Pow(BASE, n) + Low(lhs, n)
  {
    if |lhs| > n {
      SplitValue(lhs, n);
    } else {
      assert HighPart(lhs, n) == [];
      assert Low(lhs, n) == Value(lhs);
    }
  }

  lemma TotalArith(vh: int, v0: int, vhd: int, c: int, pr: int, ll: int, vl: int, vr: int)
    requires v0 + c * pr == ll + vr && vhd == vh * pr + v0 && vl == vh * pr + ll
    ensures vhd + c * pr == vl + vr
  {
  }

  /** `operator+=` as written: the final carry is inserted at the front, which is
      right only when the right-hand side has at least as many limbs. With a
      longer left-hand side the sum is exact precisely when the low |rhs| limbs
      of both operands do not carry out; when they do, the carry lands at
      BASE^|lhs| instead of BASE^|rhs|. */
  function AddAsWritten(lhs: BigNum, rhs: BigNum): (r: BigNum)
    ensures |lhs| <= |rhs| ==> Value(r) == Value(lhs) + Value(rhs)
    ensures |lhs| > |rhs| ==>
              (Value(r) == Value(lhs) + Value(rhs) <==> Low(lhs, |rhs|) + Value(rhs) < Pow(BASE, |rhs|))
    ensures |lhs| > |rhs| && Low(lhs, |rhs|) + Value(rhs) >= Pow(BASE, |rhs|) ==>
              Value(r) + Pow(BASE, |rhs|) == Value(lhs) + Value(rhs) + Pow(BASE, |lhs|)
    ensures Normalised(lhs) && Normalised(rhs) && |lhs| <= |rhs| ==> Normalised(r)
  {
    var (ds, c) := AddDigits(lhs, rhs, 0, 0);
    var raw := HighPart(lhs, |rhs|) + ds;
    var r: BigNum := if c > 0 then [1] + raw else raw;
    AddDigitsTotal(lhs, rhs);
    AddDigitsFromZero(lhs, rhs);
    if |lhs| <= |rhs| then
      assert raw == ds;
      AddAsWrittenFacts(lhs, rhs, ds, c);
      r
    else
      AddAsWrittenLong(lhs, rhs, raw, ds, c);
      r
  }

  /** With no more left-hand limbs than right-hand ones the carry in front is
      worth BASE^|rhs|, as it should be. */
  lemma AddAsWrittenFacts(lhs: BigNum, rhs: BigNum, ds: seq<Limb>, c: nat)
    requires |lhs| <= |rhs| && |ds| == |rhs| && c <= 1
    requires Value(ds) + c * Pow(BASE, |rhs|) == Value(lhs) + Value(rhs)
    ensures var r := if c > 0 then [1] + ds else ds;
            Value(r) == Value(lhs) + Value(rhs)
            && (Normalised(lhs) && Normalised(rhs) ==> Normalised(r))
  {
    if c > 0 {
      assert Value([1] + ds) == Pow(BASE, |rhs|) + Value(ds) by {
        ValueAppend([1], ds);
        ValueSingle(1);
      }
    } else if Normalised(rhs) && |rhs| > 1 {
      assert Value(ds) >= Pow(BASE, |ds| - 1) by {
        NormalisedLower(rhs);
      }
      NonzeroLead(ds);
    }
  }

  /** With a longer left-hand side, the carry out of the low |rhs| limbs decides
      whether the result as written is exact. */
  lemma AddAsWrittenLong(lhs: BigNum, rhs: BigNum, raw: seq<Limb>, ds: seq<Limb>, c: nat)
    requires |lhs| > |rhs| && |raw| == |lhs| && |ds| == |rhs| && c <= 1
    requires Value(raw) + c * Pow(BASE, |rhs|) == Value(lhs) + Value(rhs)
    requires Value(ds) + c * Pow(BASE, |rhs|) == Low(lhs, |rhs|) + Value(rhs)
    ensures var r := if c > 0 then [1] + raw else raw;
            (Value(r) == Value(lhs) + Value(rhs) <==> Low(lhs, |rhs|) + Value(rhs) < Pow(BASE, |rhs|))
            && (Low(lhs, |rhs|) + Value(rhs) >= Pow(BASE, |rhs|) ==>
                  Value(r) + Pow(BASE, |rhs|) == Value(lhs) + Value(rhs) + Pow(BASE, |lhs|))
  {
    var r := if c > 0 then [1] + raw else raw;
    var p, pl := Pow(BASE, |rhs|), Pow(BASE, |lhs|);
    ValueBound(ds);
    assert c > 0 ==> Value(r) == pl + Value(raw) by {
      ValueAppend([1], raw);
      ValueSingle(1);
    }
    assert p > 0 && pl >= 2 * p by {
      PowPositive(BASE, |rhs|);
      PowMonotone(BASE, |rhs| + 1, |lhs|);
      assert Pow(BASE, |rhs| + 1) == BASE * p;
    }
    CarryArithLong(Value(ds), c, p, pl, Low(lhs, |rhs|) + Value(rhs), Value(raw), Value(r), Value(lhs) + Value(rhs));
  }

  lemma CarryArithLong(vds: int, c: int, p: int, pl: int, low: int, vraw: int, vr: int, total: int)
    requires 0 <= vds < p && 0 <= c <= 1 && p > 0 && pl >= 2 * p
    requires vds + c * p == low && vraw + c * p == total
    requires c > 0 ==> vr == pl + vraw
    requires c == 0 ==> vr == vraw
    ensures vr == total <==> low < p
    ensures low >= p ==> vr + p == total + pl
  {
  }

  /** `operator+=(std::size_t)`: the limb is wrapped as the one-limb number {n}. */
  function AddLimbAsWritten(lhs: BigNum, n: Limb): (r: BigNum)
    ensures |lhs| == 1 ==> Value(r) == Value(lhs) + n
  {
    ValueSingle(n);
    AddAsWritten(lhs, [n])
  }

  /** The corrected last step of `+=`: the carry out of the visited positions
      is added into the high limbs above them, growing the vector only when
      they run out. */
  function CarryOnto(high: seq<Limb>, ds: seq<Limb>, c: nat): (r: seq<Limb>)
    requires c <= 1
  {
    if c == 0 then high + ds
    else if |high| > 0 then IncFrom(high, 0) + ds
    else [1] + ds
  }

  lemma OneMoreArith(v: int, p: int, vds: int, vh: int, vraw: int)
    requires vh == v + 1 && vraw == vh * p + vds
    ensures vraw == v * p + vds + p
  {
  }

  lemma CarryOntoValue(high: seq<Limb>, ds: seq<Limb>, c: nat)
    requires c <= 1
    ensures Value(CarryOnto(high, ds, c)) == Value(high + ds) + c * Pow(BASE, |ds|)
  {
    ValueAppend(high, ds);
    if c == 0 {
      ZeroTimes(c, Pow(BASE, |ds|));
    } else if |high| > 0 {
      var h' := IncFrom(high, 0);
      IncFromValue(high, 0);
      ValueAppend(h', ds);
      OneMoreArith(Value(high), Pow(BASE, |ds|), Value(ds), Value(h'), Value(h' + ds));
    } else {
      ValueAppend([1], ds);
      ValueSingle(1);
      assert high + ds == ds;
    }
  }

  /** Adding the carry to a high part with no leading zero keeps it so. */
  lemma CarryOntoNormalised(high: seq<Limb>, ds: seq<Limb>, c: nat)
    requires c <= 1 && |high| > 0 && high[0] != 0
    ensures |CarryOnto(high, ds, c)| > 0 && CarryOnto(high, ds, c)[0] != 0
  {
    if c == 1 {
      IncFromShape(high, 0);
      assert (IncFrom(high, 0) + ds)[0] == IncFrom(high, 0)[0];
    }
  }

  /** Corrected `+=`: the final carry runs on into the untouched high limbs. */
  function AddFixed(lhs: BigNum, rhs: BigNum): (r: BigNum)
    ensures Value(r) == Value(lhs) + Value(rhs)
    ensures Normalised(lhs) && Normalised(rhs) ==> Normalised(r)
    ensures |lhs| <= |rhs| ==> r == AddAsWritten(lhs, rhs)
  {
    var (ds, c) := AddDigits(lhs, rhs, 0, 0);
    var high := HighPart(lhs, |rhs|);
    AddDigitsTotal(lhs, rhs);
    CarryOntoValue(high, ds, c);
    assert |lhs| > |rhs| ==> high[0] == lhs[0];
    if |lhs| > |rhs| && Normalised(lhs) then
      CarryOntoNormalised(high, ds, c);
      CarryOnto(high, ds, c)
    else if |lhs| <= |rhs| then
      assert high == [] && high + ds == ds;
      AddDigitsFromZero(lhs, rhs);
      AddAsWrittenFacts(lhs, rhs, ds, c);
      CarryOnto(high, ds, c)
    else
      CarryOnto(high, ds, c)
  }

  // ---------------------------------------------------------------------------
  // operator-= (http-requests.cpp:264-375)

  lemma SubStepArith(base: int, v: int, vd: int, d: int, p: int, bp: int, c: int, pr: int, lossRest: int, lost: int,
                     lowL: int, lowL1: int, lowR: int, lowR1: int, l0: int, r1: int, borrow: int, b: int,
                     ll: int, rr: int)
    requires bp == base * p && vd == v * base + d
    requires lowL1 == lowL + l0 * p && lowR1 == lowR + r1 * p
    requires v * bp + rr + lossRest + b * bp + lowL1 == ll + lowR1 + c * pr
    requires d - b * base + lost == l0 - r1 - borrow
    ensures vd * p + rr + (lossRest + lost * p) + borrow * p + lowL == ll + lowR + c * pr
  {
    assert vd * p == v * bp + d * p;
    assert (d - b * base + lost) * p == (l0 - r1 - borrow) * p;
    assert (d - b * base + lost) * p == d * p - b * bp + lost * p;
  }

  /** One position of the `-=` loop: the digit written, the borrow out, and
      whether the digit came out one short (a fresh borrow written as
      MAX - (r - l) rather than BASE + l - r; `exact` writes the latter). */
  function SubStep(l0: Limb, r1: Limb, borrow: nat, exact: bool): (r: (Limb, nat, nat))
    requires borrow <= 1
    ensures r.1 <= 1 && r.2 <= 1 && (exact ==> r.2 == 0)
    ensures r.0 - r.1 * BASE + r.2 == l0 - r1 - borrow
    ensures r.2 == 1 <==> !exact && borrow == 0 && r1 > l0
    ensures r.1 == 1 <==> r1 + borrow > l0
  {
    if borrow == 0 && r1 > l0 then
      (if exact then MAX - (r1 - l0) + 1 else MAX - (r1 - l0), 1, if exact then 0 else 1)
    else if borrow == 0 then (l0 - r1, 0, 0)
    else if r1 >= l0 then (MAX - (r1 - l0), 1, 0)
    else (l0 - r1 - 1, 0, 0)
  }

  /** Positions k.. of the `-=` loop with `borrow` coming in: the digits (most
      significant first), the borrow left over, and `loss`, the total weight of
      the digits that came out one short. */
  function SubDigits(lhs: seq<Limb>, rhs: seq<Limb>, k: nat, borrow: nat, exact: bool): (r: (seq<Limb>, nat, nat))
    requires |rhs| <= |lhs| && k <= |rhs| && borrow <= 1
    ensures |r.0| == |rhs| - k && r.1 <= 1
    ensures exact ==> r.2 == 0
    decreases |rhs| - k
  {
    if k == |rhs| then ([], borrow, 0)
    else
      var (d, b, lost) := SubStep(lhs[|lhs| - 1 - k], rhs[|rhs| - 1 - k], borrow, exact);
      var rest := SubDigits(lhs, rhs, k + 1, b, exact);
      (rest.0 + [d], rest.1, rest.2 + lost * Pow(BASE, k))
  }

  /** The digits, the borrow out and the loss account for both operands' limbs. */
  lemma {:induction false} SubDigitsValue(lhs: seq<Limb>, rhs: seq<Limb>, k: nat, borrow: nat, exact: bool)
    requires |rhs| <= |lhs| && k <= |rhs| && borrow <= 1
    ensures var (ds, c, loss) := SubDigits(lhs, rhs, k, borrow, exact);
            Value(ds) * Pow(BASE, k) + Low(rhs, |rhs|) + loss + borrow * Pow(BASE, k) + Low(lhs, k)
            == Low(lhs, |rhs|) + Low(rhs, k) + c * Pow(BASE, |rhs|)
    decreases |rhs| - k
  {
    if k < |rhs| {
      var l0, r1 := lhs[|lhs| - 1 - k], rhs[|rhs| - 1 - k];
      var st := SubStep(l0, r1, borrow, exact);
      var d, b, lost := st.0, st.1, st.2;
      var rest := SubDigits(lhs, rhs, k + 1, b, exact);
      assert SubDigits(lhs, rhs, k, borrow, exact) == (rest.0 + [d], rest.1, rest.2 + lost * Pow(BASE, k));
      SubDigitsValue(lhs, rhs, k + 1, b, exact);
      ValuePush(rest.0, d);
      LowStep(lhs, k);
      LowStep(rhs, k);
      assert LimbAt(lhs, k) == l0 && LimbAt(rhs, k) == r1;
      PowNext(k);
      SubStepArith(BASE, Value(rest.0), Value(rest.0 + [d]), d, Pow(BASE, k), Pow(BASE, k + 1), rest.1,
                   Pow(BASE, |rhs|), rest.2, lost, Low(lhs, k), Low(lhs, k + 1), Low(rhs, k), Low(rhs, k + 1),
                   LimbAt(lhs, k), LimbAt(rhs, k), borrow, b, Low(lhs, |rhs|), Low(rhs, |rhs|));
    } else {
      assert Value([]) == 0;
    }
  }

  /** With no borrow coming in, the as-written loop loses nothing exactly when no
      right-hand limb exceeds the left-hand limb at its position. */
  lemma {:induction false} SubDigitsLoss(lhs: seq<Limb>, rhs: seq<Limb>, k: nat)
    requires |rhs| <= |lhs| && k <= |rhs|
    ensures SubDigits(lhs, rhs, k, 0, false).2 == 0 <==> forall j :: k <= j < |rhs| ==> LimbAt(rhs, j) <= LimbAt(lhs, j)
    decreases |rhs| - k
  {
    if k < |rhs| {
      var l0, r1 := lhs[|lhs| - 1 - k], rhs[|rhs| - 1 - k];
      assert LimbAt(lhs, k) == l0 && LimbAt(rhs, k) == r1;
      SubDigitsLoss(lhs, rhs, k + 1);
      PowPositive(BASE, k);
    }
  }

  /** The borrow runs the same way whichever digit is written on a fresh borrow,
      and without a fresh borrow the digits agree too. */
  lemma {:induction false} SubDigitsAgree(lhs: seq<Limb>, rhs: seq<Limb>, k: nat, borrow: nat)
    requires |rhs| <= |lhs| && k <= |rhs| && borrow <= 1
    ensures SubDigits(lhs, rhs, k, borrow, false).1 == SubDigits(lhs, rhs, k, borrow, true).1
    ensures borrow == 0 && (forall j :: k <= j < |rhs| ==> LimbAt(rhs, j) <= LimbAt(lhs, j)) ==>
              SubDigits(lhs, rhs, k, borrow, false) == SubDigits(lhs, rhs, k, borrow, true)
    decreases |rhs| - k
  {
    if k < |rhs| {
      var l0, r1 := lhs[|lhs| - 1 - k], rhs[|rhs| - 1 - k];
      assert LimbAt(lhs, k) == l0 && LimbAt(rhs, k) == r1;
      SubDigitsAgree(lhs, rhs, k + 1, SubStep(l0, r1, borrow, false).1);
    }
  }

  /** The borrow loop after the main loop: runs the borrow into the high limbs. */
  function BorrowOut(h: seq<Limb>, c: nat): (r: (seq<Limb>, nat))
    requires c <= 1
    ensures |r.0| == |h| && r.1 <= 1
    decreases |h|
  {
    if c == 0 || |h| == 0 then (h, c)
    else if h[|h| - 1] == 0 then
      var r := BorrowOut(h[..|h| - 1], 1);
      (r.0 + [MAX], r.1)
    else
      (h[..|h| - 1] + [h[|h| - 1] - 1], 0)
  }

  lemma {:induction false} BorrowOutValue(h: seq<Limb>, c: nat)
    requires c <= 1
    ensures Value(BorrowOut(h, c).0) + c == Value(h) + BorrowOut(h, c).1 * Pow(BASE, |h|)
    decreases |h|
  {
    if c == 1 && |h| > 0 {
      var h0 := h[..|h| - 1];
      assert h == h0 + [h[|h| - 1]];
      ValuePush(h0, h[|h| - 1]);
      if h[|h| - 1] == 0 {
        var r := BorrowOut(h0, 1);
        BorrowOutValue(h0, 1);
        ValuePush(r.0, MAX);
        Distrib(r.1, Pow(BASE, |h0|), 0, BASE);
      } else {
        ValuePush(h0, h[|h| - 1] - 1);
      }
    }
  }

  /** The limbs `-=` holds before stripping, the borrow left at the top, and the loss. */
  function SubRaw(lhs: seq<Limb>, rhs: seq<Limb>, exact: bool): (r: (seq<Limb>, nat, nat))
    requires |rhs| <= |lhs|
    ensures |r.0| == |lhs| && r.1 <= 1
    ensures exact ==> r.2 == 0
  {
    var (ds, c, loss) := SubDigits(lhs, rhs, 0, 0, exact);
    var (h, c2) := BorrowOut(lhs[..|lhs| - |rhs|], c);
    (h + ds, c2, loss)
  }

  lemma SubRawArith(vds: int, rr: int, loss: int, ll: int, c: int, pr: int, hv: int, lh: int,
                    c2: int, ph: int, vraw: int, vl: int, pl: int)
    requires vds + rr + loss == ll + c * pr
    requires hv + c == lh + c2 * ph
    requires vraw == hv * pr + vds && vl == lh * pr + ll && pl == ph * pr
    ensures vraw + loss + rr == vl + c2 * pl
  {
    assert (hv + c) * pr == (lh + c2 * ph) * pr;
    assert (hv + c) * pr == hv * pr + c * pr;
    assert (lh + c2 * ph) * pr == lh * pr + c2 * (ph * pr);
  }

  lemma SubRawValue(lhs: seq<Limb>, rhs: seq<Limb>, exact: bool)
    requires |rhs| <= |lhs|
    ensures var (raw, c, loss) := SubRaw(lhs, rhs, exact);
            Value(raw) + loss + Value(rhs) == Value(lhs) + c * Pow(BASE, |lhs|)
  {
    var sd := SubDigits(lhs, rhs, 0, 0, exact);
    var ds, c, loss := sd.0, sd.1, sd.2;
    var high := lhs[..|lhs| - |rhs|];
    var bo := BorrowOut(high, c);
    var h, c2 := bo.0, bo.1;
    assert SubRaw(lhs, rhs, exact) == (h + ds, c2, loss);
    SubDigitsValue(lhs, rhs, 0, 0, exact);
    BorrowOutValue(high, c);
    LowZero(lhs);
    LowZero(rhs);
    LowFull(rhs);
    assert Pow(BASE, 0) == 1;
    assert Value(ds) * 1 == Value(ds);
    ValueAppend(h, ds);
    SplitValue(lhs, |rhs|);
    PowSplit(BASE, |lhs|, |rhs|);
    assert Value(ds) + Value(rhs) + loss == Low(lhs, |rhs|) + c * Pow(BASE, |rhs|);
    assert Value(h) + c == Value(high) + c2 * Pow(BASE, |lhs| - |rhs|);
    assert Value(h + ds) == Value(h) * Pow(BASE, |rhs|) + Value(ds);
    assert Value(lhs) == Value(high) * Pow(BASE, |rhs|) + Low(lhs, |rhs|);
    assert Pow(BASE, |lhs|) == Pow(BASE, |lhs| - |rhs|) * Pow(BASE, |rhs|);
    SubRawArith(Value(ds), Value(rhs), loss, Low(lhs, |rhs|), c, Pow(BASE, |rhs|), Value(h), Value(high),
                c2, Pow(BASE, |lhs| - |rhs|), Value(h + ds), Value(lhs), Pow(BASE, |lhs|));
  }

  /** No position where the right-hand limb exceeds the left-hand one. */
  predicate NoBorrow(lhs: seq<Limb>, rhs: seq<Limb>)
  {
    forall j :: 0 <= j < |rhs| ==> LimbAt(rhs, j) <= LimbAt(lhs, j)
  }

  /** How far the as-written `-=` falls short of the true difference. */
  function Loss(lhs: seq<Limb>, rhs: seq<Limb>): (loss: nat)
    requires |rhs| <= |lhs|
    ensures loss == 0 <==> NoBorrow(lhs, rhs)
  {
    SubDigitsLoss(lhs, rhs, 0);
    SubDigits(lhs, rhs, 0, 0, false).2
  }

  /** On normalised operands the top borrow is zero once lhs exceeds rhs, in
      both variants. */
  lemma SubRawNoTopBorrow(lhs: seq<Limb>, rhs: seq<Limb>)
    requires Normalised(lhs) && Normalised(rhs) && Value(lhs) > Value(rhs)
    ensures |rhs| <= |lhs|
    ensures SubRaw(lhs, rhs, true).1 == 0 && SubRaw(lhs, rhs, false).1 == 0
  {
    CompareNumeric(lhs, rhs);
    SubRawValue(lhs, rhs, true);
    var t := SubRaw(lhs, rhs, true);
    ValueBound(t.0);
    TopBorrowArith(Value(t.0), Value(rhs), Value(lhs), t.1, Pow(BASE, |lhs|));
    SubRawAgree(lhs, rhs);
  }

  /** So the corrected raw limbs are the difference, and the as-written ones the
      difference less the loss. */
  lemma SubRawExact(lhs: seq<Limb>, rhs: seq<Limb>)
    requires Normalised(lhs) && Normalised(rhs) && Value(lhs) > Value(rhs)
    ensures |rhs| <= |lhs|
    ensures SubRaw(lhs, rhs, true).1 == 0 && SubRaw(lhs, rhs, false).1 == 0
    ensures Value(SubRaw(lhs, rhs, true).0) == Value(lhs) - Value(rhs)
    ensures Value(SubRaw(lhs, rhs, false).0) + Loss(lhs, rhs) == Value(lhs) - Value(rhs)
    ensures NoBorrow(lhs, rhs) ==> SubRaw(lhs, rhs, false) == SubRaw(lhs, rhs, true)
  {
    SubRawNoTopBorrow(lhs, rhs);
    var t, f := SubRaw(lhs, rhs, true), SubRaw(lhs, rhs, false);
    SubRawValue(lhs, rhs, true);
    SubRawValue(lhs, rhs, false);
    ZeroTimes(t.1, Pow(BASE, |lhs|));
    ZeroTimes(f.1, Pow(BASE, |lhs|));
    SubRawAgree(lhs, rhs);
    assert Loss(lhs, rhs) == f.2;
  }

  lemma TopBorrowArith(v: int, vr: int, vl: int, c: int, pl: int)
    requires v + 0 + vr == vl + c * pl && 0 <= v < pl && vl > vr && 0 <= c <= 1
    ensures c == 0
  {
  }

  /** Both digit choices leave the same top borrow, and the same limbs when no
      position borrows afresh. */
  lemma SubRawAgree(lhs: seq<Limb>, rhs: seq<Limb>)
    requires |rhs| <= |lhs|
    ensures SubRaw(lhs, rhs, false).1 == SubRaw(lhs, rhs, true).1
    ensures NoBorrow(lhs, rhs) ==> SubRaw(lhs, rhs, false) == SubRaw(lhs, rhs, true)
  {
    SubDigitsAgree(lhs, rhs, 0, 0);
  }

  /** `operator-=` as written: saturates at {0} when lhs <= rhs; otherwise the
      result falls short of the difference by `Loss`, and is undefined when the
      shortfall leaves only zero limbs. */
  function SubtractAsWritten(lhs: BigNum, rhs: BigNum): (r: Result<BigNum>)
    ensures LessEq(lhs, rhs) ==> r == Success([0])
    ensures Normalised(lhs) && Normalised(rhs) && Value(lhs) <= Value(rhs) ==> r == Success([0])
    ensures Normalised(lhs) && Normalised(rhs) && Value(lhs) > Value(rhs) && NoBorrow(lhs, rhs) ==>
              r.Success? && Value(r.value) == Value(lhs) - Value(rhs) && Normalised(r.value)
  {
    if Normalised(lhs) && Normalised(rhs) then
      CompareNumeric(lhs, rhs);
      if LessEq(lhs, rhs) then Success([0])
      else
        SubRawExact(lhs, rhs);
        AllZeroValue(SubRaw(lhs, rhs, false).0);
        StripAsWritten(SubRaw(lhs, rhs, false).0)
    else if LessEq(lhs, rhs) then Success([0])
    else StripAsWritten(SubRaw(lhs, rhs, false).0)
  }

  /** `-=` on lhs > rhs: the as-written result is the difference less `Loss`,
      failing exactly when that leaves zero. */
  lemma SubtractShortfall(lhs: BigNum, rhs: BigNum)
    requires Normalised(lhs) && Normalised(rhs) && Value(lhs) > Value(rhs)
    ensures |rhs| <= |lhs| && Loss(lhs, rhs) <= Value(lhs) - Value(rhs)
    ensures SubtractAsWritten(lhs, rhs).Failure? <==> Loss(lhs, rhs) == Value(lhs) - Value(rhs)
    ensures SubtractAsWritten(lhs, rhs).Success? ==>
              Value(SubtractAsWritten(lhs, rhs).value) + Loss(lhs, rhs) == Value(lhs) - Value(rhs)
  {
    CompareNumeric(lhs, rhs);
    SubRawExact(lhs, rhs);
    AllZeroValue(SubRaw(lhs, rhs, false).0);
  }

  /** `operator-=(std::size_t)`: the limb is wrapped as the one-limb number {n}. */
  function SubtractLimbAsWritten(lhs: BigNum, n: Limb): (r: Result<BigNum>)
    ensures Normalised(lhs) && Value(lhs) <= n ==> r == Success([0])
    ensures Normalised(lhs) && Value(lhs) > n && n <= lhs[|lhs| - 1] ==>
              r.Success? && Value(r.value) == Value(lhs) - n
  {
    ValueSingle(n);
    if Normalised(lhs) then
      CompareNumeric(lhs, [n]);
      assert n <= lhs[|lhs| - 1] ==> NoBorrow(lhs, [n]);
      SubtractAsWritten(lhs, [n])
    else
      SubtractAsWritten(lhs, [n])
  }

  /** Corrected `-=`: a fresh borrow writes BASE + l - r. */
  function SubtractFixed(lhs: BigNum, rhs: BigNum): (r: BigNum)
    ensures LessEq(lhs, rhs) ==> r == [0]
    ensures Normalised(lhs) && Normalised(rhs) ==>
              Normalised(r) && Value(r) == if Value(lhs) <= Value(rhs) then 0 else Value(lhs) - Value(rhs)
    ensures Normalised(lhs) && Normalised(rhs) && NoBorrow(lhs, rhs) ==> SubtractAsWritten(lhs, rhs) == Success(r)
  {
    ValueSingle(0);
    if Normalised(lhs) && Normalised(rhs) then
      CompareNumeric(lhs, rhs);
      if LessEq(lhs, rhs) then [0]
      else
        SubRawExact(lhs, rhs);
        AllZeroValue(SubRaw(lhs, rhs, true).0);
        StripLeadingZeros(SubRaw(lhs, rhs, true).0)
    else if LessEq(lhs, rhs) then [0]
    else StripLeadingZeros(SubRaw(lhs, rhs, true).0)
  }

  // ---------------------------------------------------------------------------
  // Concrete inputs on which the as-written operators go wrong

  /** {1, MAX} += {1}: the carry out of the low limb is put in front of the
      whole vector instead of into the limb above, giving {1, 1, 0}. */
  lemma AddCarryMisplaced()
    ensures AddAsWritten([1, MAX], [1]) == [1, 1, 0]
    ensures Value(AddAsWritten([1, MAX], [1])) != Value([1, MAX]) + Value([1])
    ensures AddFixed([1, MAX], [1]) == [2, 0]
  {
    assert LimbAt([1, MAX], 0) == MAX;
    assert AddDigits([1, MAX], [1], 1, 1) == ([], 1);
    assert AddDigits([1, MAX], [1], 0, 0) == ([] + [0], 1);
    assert HighPart([1, MAX], 1) == [1];
    assert IncFrom([1], 0) == [2];
    ValueAppend([1, 1], [0]);
    ValueAppend([1], [1]);
    ValueAppend([1], [MAX]);
    ValueSingle(0);
    ValueSingle(1);
    ValueSingle(MAX);
  }

  /** {1, 1} -= {9}: the fresh borrow writes MAX - 8 where BASE - 8 belongs,
      one short of the difference MAX - 7. */
  lemma SubtractOneShort()
    ensures SubtractAsWritten([1, 1], [9]) == Success([MAX - 8])
    ensures Value([1, 1]) - Value([9]) == MAX - 7
    ensures SubtractFixed([1, 1], [9]) == [MAX - 7]
  {
    var l: BigNum, r: BigNum := [1, 1], [9];
    assert Pow(BASE, 0) == 1;
    assert SubStep(1, 9, 0, false) == (MAX - 8, 1, 1);
    assert SubStep(1, 9, 0, true) == (MAX - 7, 1, 0);
    assert SubDigits(l, r, 1, 1, false) == ([], 1, 0);
    assert SubDigits(l, r, 1, 1, true) == ([], 1, 0);
    var f, t := SubDigits(l, r, 0, 0, false), SubDigits(l, r, 0, 0, true);
    assert f == ([] + [MAX - 8], 1, 0 + 1 * 1);
    assert t == ([] + [MAX - 7], 1, 0 + 0 * 1);
    assert l[..1] == [1] && [1][..0] == [];
    var bo := BorrowOut([1], 1);
    assert bo == ([] + [0], 0);
    assert SubRaw(l, r, false) == (bo.0 + f.0, bo.1, f.2);
    assert SubRaw(l, r, true) == (bo.0 + t.0, bo.1, t.2);
    assert [0, MAX - 8][1..] == [MAX - 8];
    assert [0, MAX - 7][1..] == [MAX - 7];
    ValueAppend([1], [1]);
    ValueSingle(1);
    ValueSingle(9);
  }

  /** {1, 0} -= {MAX}: the difference is 1, but the one-short digit is 0, so
      every limb is zero and the strip reads `front()` of an empty vector. */
  lemma SubtractEmptiesVector()
    ensures Value([1, 0]) - Value([MAX]) == 1
    ensures SubtractAsWritten([1, 0], [MAX]).Failure?
    ensures SubtractFixed([1, 0], [MAX]) == [1]
  {
    var l: BigNum, r: BigNum := [1, 0], [MAX];
    assert Pow(BASE, 0) == 1;
    assert SubStep(0, MAX, 0, false) == (0, 1, 1);
    assert SubStep(0, MAX, 0, true) == (1, 1, 0);
    assert SubDigits(l, r, 1, 1, false) == ([], 1, 0);
    assert SubDigits(l, r, 1, 1, true) == ([], 1, 0);
    var f, t := SubDigits(l, r, 0, 0, false), SubDigits(l, r, 0, 0, true);
    assert f == ([] + [0], 1, 0 + 1 * 1);
    assert t == ([] + [1], 1, 0 + 0 * 1);
    assert l[..1] == [1] && [1][..0] == [];
    var bo := BorrowOut([1], 1);
    assert bo == ([] + [0], 0);
    assert SubRaw(l, r, false) == (bo.0 + f.0, bo.1, f.2);
    assert SubRaw(l, r, true) == (bo.0 + t.0, bo.1, t.2);
    assert AllZero([0, 0]);
    assert [0, 1][1..] == [1];
    ValueAppend([1], [0]);
    ValueSingle(1);
    ValueSingle(0);
    ValueSingle(MAX);
  }

  // ---------------------------------------------------------------------------
  // Hex-string constructor (http-requests.cpp:9-25) and writer (http-requests.cpp:377-386)

  lemma Pow16Blocks(m: nat)
    ensures Pow(16, 16 * m) == Pow(BASE, m)
  {
    if m > 0 {
      Pow16Blocks(m - 1);
      PowAdd(16, 16, 16 * (m - 1));
      assert 16 * m == 16 + 16 * (m - 1);
      Pow16To2To64();
    }
  }

  /** One partition of at most 16 characters through `std::from_chars`. */
  function ParsePartition(p: seq<char>): (r: Result<Limb>)
    requires |p| <= 16
    ensures r.Failure? <==> (|p| == 0 || !IsHexDigit(p[0]))
    ensures AllHex(p) && |p| > 0 ==> r == Success(HexValue(p))
  {
    match FromChars(p)
    case None => Failure("char conversion failed.")
    case Some(v) =>
      var n := HexPrefixLen(p);
      HexValueBound(p[..n]);
      PowMonotone(16, n, 16);
      Pow16To2To64();
      Success(v)
  }

  /** The 16-character partitions after the leading one, most significant first. */
  function FromHexBlocks(t: seq<char>): (r: Result<seq<Limb>>)
    requires |t| % 16 == 0
    ensures AllHex(t) ==> r.Success? && |r.value| == |t| / 16 && Value(r.value) == HexValue(t)
    decreases |t|
  {
    if |t| == 0 then Success([])
    else
      assert AllHex(t) ==> AllHex(t[..16]) && AllHex(t[16..]) by {
        if AllHex(t) { AllHexSplit(t, 16); }
      }
      var l :- ParsePartition(t[..16]);
      var rest :- FromHexBlocks(t[16..]);
      assert AllHex(t) ==> Value([l] + rest) == HexValue(t) by {
        if AllHex(t) {
          assert t == t[..16] + t[16..];
          JoinValue(t[..16], t[16..], l, rest);
        }
      }
      Success([l] + rest)
  }

  /** A leading limb read from `a` followed by limbs read from the 16-digit
      blocks of `b` denote the digits of `a + b`. */
  lemma JoinValue(a: seq<char>, b: seq<char>, lead: Limb, rest: seq<Limb>)
    requires AllHex(a) && AllHex(b)
    requires lead == HexValue(a) && Value(rest) == HexValue(b) && |b| == 16 * |rest|
    ensures Value([lead] + rest) == HexValue(a + b)
  {
    HexValueAppend(a, b);
    ValueAppend([lead], rest);
    ValueSingle(lead);
    Pow16Blocks(|rest|);
  }

  lemma AllHexSplit(s: seq<char>, i: nat)
    requires AllHex(s) && i <= |s|
    ensures AllHex(s[..i]) && AllHex(s[i..])
  {
    assert forall j :: 0 <= j < i ==> s[..i][j] == s[j];
    assert forall j :: 0 <= j < |s| - i ==> s[i..][j] == s[i + j];
  }

  lemma HexLeadNonzero(x: seq<char>)
    requires AllHex(x) && |x| > 0 && x[0] != '0'
    ensures HexValue(x) >= 1
  {
    assert x == [x[0]] + x[1..];
    AllHexSplit(x, 1);
    HexValueAppend([x[0]], x[1..]);
    assert [x[0]][..0] == [];
    assert HexValue([x[0]]) == DigitValue(x[0]) >= 1;
    PowPositive(16, |x| - 1);
    MulAtLeast(DigitValue(x[0]), Pow(16, |x| - 1));
  }

  /** The partitions of `s` once the leading one has been given `n`
      characters: that one is read first, then each following 16. */
  function ReadPartitions(s: seq<char>, n: nat): (r: Result<BigNum>)
    requires n <= 16 && n <= |s| && (|s| - n) % 16 == 0
    ensures n == 0 ==> r.Failure?
    ensures AllHex(s) && n > 0 ==>
              r.Success? && |r.value| == (|s| - n) / 16 + 1 && Value(r.value) == HexValue(s)
    ensures AllHex(s) && n > 0 && (s[0] != '0' || |s| == 1) ==> r.Success? && Normalised(r.value)
  {
    assert AllHex(s) ==> AllHex(s[..n]) && AllHex(s[n..]) by {
      if AllHex(s) { AllHexSplit(s, n); }
    }
    var lead :- ParsePartition(s[..n]);
    var rest :- FromHexBlocks(s[n..]);
    assert AllHex(s) ==> Value([lead] + rest) == HexValue(s) && (s[0] != '0' ==> lead >= 1) by {
      if AllHex(s) {
        assert s == s[..n] + s[n..];
        JoinValue(s[..n], s[n..], lead, rest);
        if s[0] != '0' {
          assert s[..n][0] == s[0];
          HexLeadNonzero(s[..n]);
        }
      }
    }
    Success([lead] + rest)
  }

  /** `HttpBigNum(const std::string&)`: |s|/16 + 1 partitions, the leading one
      holding the first |s| mod 16 characters; a partition that does not start
      with a hex digit throws, so every length that is a multiple of 16
      (including the empty string) throws. */
  function FromHex(s: seq<char>): (r: Result<BigNum>)
    ensures |s| % 16 == 0 ==> r.Failure?
    ensures AllHex(s) && |s| % 16 != 0 ==>
              r.Success? && |r.value| == |s| / 16 + 1 && Value(r.value) == HexValue(s)
    ensures AllHex(s) && |s| % 16 != 0 && (s[0] != '0' || |s| == 1) ==> r.Success? && Normalised(r.value)
  {
    var n := |s| % 16;
    assert (|s| - n) / 16 == |s| / 16;
    ReadPartitions(s, n)
  }

  /** Limbs after the first, each as 16 zero-padded hex digits. */
  function PaddedLimbs(ls: seq<Limb>): (t: seq<char>)
    ensures |t| == 16 * |ls| && AllHex(t)
  {
    if |ls| == 0 then []
    else
      var t := PadHex(ls[0], 16) + PaddedLimbs(ls[1..]);
      assert forall i :: 0 <= i < |t| ==> IsHexDigit(t[i]) by {
        forall i | 0 <= i < |t| ensures IsHexDigit(t[i]) {
          if i < 16 { assert t[i] == PadHex(ls[0], 16)[i]; }
          else { assert t[i] == PaddedLimbs(ls[1..])[i - 16]; }
        }
      }
      t
  }

  /** `operator<<`: the first limb unpadded, the rest as 16 digits each, lower case. */
  function ToText(n: BigNum): (t: seq<char>)
    ensures |t| == |MinHex(n[0])| + 16 * (|n| - 1) && AllHex(t)
    ensures forall i :: 0 <= i < |t| ==> IsLowerHexDigit(t[i])
  {
    var t := MinHex(n[0]) + PaddedLimbs(n[1..]);
    assert forall i :: 0 <= i < |t| ==> IsLowerHexDigit(t[i]) && IsHexDigit(t[i]) by {
      forall i | 0 <= i < |t| ensures IsLowerHexDigit(t[i]) && IsHexDigit(t[i]) {
        if i < |MinHex(n[0])| { assert t[i] == MinHex(n[0])[i]; }
        else { PaddedLower(n[1..]); assert t[i] == PaddedLimbs(n[1..])[i - |MinHex(n[0])|]; }
      }
    }
    t
  }

  lemma {:induction false} PaddedLower(ls: seq<Limb>)
    ensures forall i :: 0 <= i < |PaddedLimbs(ls)| ==> IsLowerHexDigit(PaddedLimbs(ls)[i])
    decreases |ls|
  {
    if |ls| > 0 {
      PaddedLower(ls[1..]);
      var t := PaddedLimbs(ls);
      forall i | 0 <= i < |t| ensures IsLowerHexDigit(t[i]) {
        if i < 16 { assert t[i] == PadHex(ls[0], 16)[i]; }
        else { assert t[i] == PaddedLimbs(ls[1..])[i - 16]; }
      }
    }
  }

  lemma {:induction false} PaddedLimbsRoundTrip(ls: seq<Limb>)
    ensures FromHexBlocks(PaddedLimbs(ls)) == Success(ls)
    decreases |ls|
  {
    if |ls| > 0 {
      var t := PaddedLimbs(ls);
      assert t[..16] == PadHex(ls[0], 16);
      assert t[16..] == PaddedLimbs(ls[1..]);
      Pow16To2To64();
      PadHexValue(ls[0], 16);
      PaddedLimbsRoundTrip(ls[1..]);
      assert ls == [ls[0]] + ls[1..];
    }
  }

  /** The text `operator<<` writes, partitioned after its leading limb's
      digits, reads back as the number. */
  lemma ReadWritten(n: BigNum)
    requires |MinHex(n[0])| <= 16
    ensures ReadPartitions(ToText(n), |MinHex(n[0])|) == Success(n)
  {
    var t := ToText(n);
    var m := MinHex(n[0]);
    assert t[..|m|] == m;
    assert t[|m|..] == PaddedLimbs(n[1..]);
    MinHexValue(n[0]);
    Pow16To2To64();
    PaddedLimbsRoundTrip(n[1..]);
    assert n == [n[0]] + n[1..];
  }

  /** Writing a number and reading it back restores its limbs, provided the
      leading limb has fewer than 16 hex digits (otherwise the text length is
      a multiple of 16 and the constructor throws). */
  lemma HexRoundTrip(n: BigNum)
    requires n[0] < Pow(16, 15)
    ensures FromHex(ToText(n)) == Success(n)
  {
    MinHexLength(n[0], 15);
    assert |ToText(n)| % 16 == |MinHex(n[0])|;
    ReadWritten(n);
  }

  /** A leading limb of 16 hex digits makes the text a multiple of 16 long, so
      the constructor as written throws on what `operator<<` wrote. */
  lemma HexRoundTripFails(n: BigNum)
    requires n[0] >= Pow(16, 15)
    ensures FromHex(ToText(n)).Failure?
  {
    MinHexLonger(n[0], 15);
    Pow16To2To64();
    MinHexLength(n[0], 16);
    assert |ToText(n)| == 16 + 16 * (|n| - 1);
  }

  /** The constructor with the partitions counted as evidently intended: the
      leading partition takes the first |s| mod 16 characters, or 16 of them
      when that is 0, so only the empty string has no leading digits. */
  function FromHexFixed(s: seq<char>): (r: Result<BigNum>)
    ensures |s| == 0 ==> r.Failure?
    ensures AllHex(s) && |s| > 0 ==>
              r.Success? && |r.value| == (|s| + 15) / 16 && Value(r.value) == HexValue(s)
    ensures AllHex(s) && |s| > 0 && (s[0] != '0' || |s| == 1) ==> r.Success? && Normalised(r.value)
    ensures |s| % 16 != 0 ==> r == FromHex(s)
  {
    var n := if |s| > 0 && |s| % 16 == 0 then 16 else |s| % 16;
    assert |s| > 0 ==> (|s| - n) / 16 + 1 == (|s| + 15) / 16;
    ReadPartitions(s, n)
  }

  /** With the corrected constructor every number `operator<<` writes reads
      back as itself. */
  lemma HexRoundTripFixed(n: BigNum)
    ensures FromHexFixed(ToText(n)) == Success(n)
  {
    var t := ToText(n);
    Pow16To2To64();
    MinHexLength(n[0], 16);
    assert (if |t| % 16 == 0 then 16 else |t| % 16) == |MinHex(n[0])|;
    ReadWritten(n);
  }

  /** k upper-case F digits denote 16^k - 1. */
  lemma {:induction false} AllF(k: nat)
    ensures AllHex(seq(k, i => 'F')) && HexValue(seq(k, i => 'F')) + 1 == Pow(16, k)
  {
    if k > 0 {
      AllF(k - 1);
      assert seq(k, i => 'F')[..k - 1] == seq(k - 1, i => 'F');
    }
  }

  /** Two limbs below BASE are determined by the number they denote. */
  lemma LimbPair(x: Limb, y: Limb, a: Limb, b: Limb)
    requires x * BASE + y == a * BASE + b
    ensures x == a && y == b
  {
    if x > a {
      MulLess(a, x, BASE);
    } else if x < a {
      MulLess(x, a, BASE);
    }
  }

  /** The hex constructor on the repository's own examples: "3E8" is {1000}
      and "1FFFFFFFFFFFFFFFF" is {1, MAX}. */
  lemma HexExamples()
    ensures FromHex("3E8") == Success([1000])
    ensures FromHex("1FFFFFFFFFFFFFFFF") == Success([1, MAX])
  {
    var a := "3E8";
    assert AllHex(a);
    assert HexValue(a) == 1000 by {
      assert a[..2] == "3E" && a[..2][..1] == "3" && "3"[..0] == [];
    }
    var r := FromHex(a).value;
    ValueSingle(r[0]);
    assert r == [r[0]];

    var f := seq(16, i => 'F');
    AllF(16);
    Pow16To2To64();
    var b := "1" + f;
    assert b == "1FFFFFFFFFFFFFFFF";
    HexValueAppend("1", f);
    assert HexValue("1") == 1 by { assert "1"[..0] == []; }
    assert HexValue(b) == BASE + MAX;
    var q := FromHex(b).value;
    assert |q| == 2 && Value(q) == BASE + MAX;
    assert Value(q) == Value(q[..1]) * BASE + q[1];
    ValueSingle(q[0]);
    assert q[..1] == [q[0]];
    LimbPair(q[0], q[1], 1, MAX);
    assert q == [1, MAX];
  }
}
