/** Fixed-width unsigned integers as lists of bits, least significant first,
    so that the masks the controller applies with `|=` and `&=` can be stated
    bit by bit. */
module Bits {
  import opened Power

  /** The low w bits of x. */
  function BitsOf(x: nat, w: nat): (b: seq<bool>)
    ensures |b| == w
  {
    if w == 0 then [] else [x % 2 == 1] + BitsOf(x / 2, w - 1)
  }

  /** The number a list of bits denotes. */
  function FromBits(b: seq<bool>): nat
  {
    if |b| == 0 then 0 else (if b[0] then 1 else 0) + 2 * FromBits(b[1..])
  }

  lemma {:induction false} BitsFromBits(b: seq<bool>)
    ensures BitsOf(FromBits(b), |b|) == b
    ensures FromBits(b) < Pow(2, |b|)
    decreases |b|
  {
    if |b| > 0 {
      BitsFromBits(b[1..]);
      assert b == [b[0]] + b[1..];
    }
  }

  /** `x | y` on w-bit integers. */
  function Or(x: nat, y: nat, w: nat): (r: nat)
    ensures r < Pow(2, w)
    ensures BitsOf(r, w) == seq(w, i requires 0 <= i < w => BitsOf(x, w)[i] || BitsOf(y, w)[i])
  {
    var s := seq(w, i requires 0 <= i < w => BitsOf(x, w)[i] || BitsOf(y, w)[i]);
    BitsFromBits(s);
    FromBits(s)
  }

  /** `x & y` on w-bit integers. */
  function And(x: nat, y: nat, w: nat): (r: nat)
    ensures r < Pow(2, w)
    ensures BitsOf(r, w) == seq(w, i requires 0 <= i < w => BitsOf(x, w)[i] && BitsOf(y, w)[i])
  {
    var s := seq(w, i requires 0 <= i < w => BitsOf(x, w)[i] && BitsOf(y, w)[i]);
    BitsFromBits(s);
    FromBits(s)
  }

  lemma Mask80()
    ensures BitsOf(0x80, 8) == [false, false, false, false, false, false, false, true]
  {
    assert BitsOf(1, 1) == [true];
    assert BitsOf(2, 2) == [false, true];
    assert BitsOf(4, 3) == [false, false, true];
    assert BitsOf(8, 4) == [false, false, false, true];
    assert BitsOf(16, 5) == [false, false, false, false, true];
    assert BitsOf(32, 6) == [false, false, false, false, false, true];
    assert BitsOf(64, 7) == [false, false, false, false, false, false, true];
    assert BitsOf(128, 8) == [false, false, false, false, false, false, false, true];
  }

  lemma MaskBF()
    ensures BitsOf(0xBF, 8) == [true, true, true, true, true, true, false, true]
  {
    assert BitsOf(1, 1) == [true];
    assert BitsOf(2, 2) == [false, true];
    assert BitsOf(5, 3) == [true, false, true];
    assert BitsOf(11, 4) == [true, true, false, true];
    assert BitsOf(23, 5) == [true, true, true, false, true];
    assert BitsOf(47, 6) == [true, true, true, true, false, true];
    assert BitsOf(95, 7) == [true, true, true, true, true, false, true];
    assert BitsOf(191, 8) == [true, true, true, true, true, true, false, true];
  }

  lemma Mask40()
    ensures BitsOf(0x40, 8) == [false, false, false, false, false, false, true, false]
  {
    assert BitsOf(0, 1) == [false];
    assert BitsOf(1, 2) == [true, false];
    assert BitsOf(2, 3) == [false, true, false];
    assert BitsOf(4, 4) == [false, false, true, false];
    assert BitsOf(8, 5) == [false, false, false, true, false];
    assert BitsOf(16, 6) == [false, false, false, false, true, false];
    assert BitsOf(32, 7) == [false, false, false, false, false, true, false];
    assert BitsOf(64, 8) == [false, false, false, false, false, false, true, false];
  }

  lemma Mask4F()
    ensures BitsOf(0x4F, 8) == [true, true, true, true, false, false, true, false]
  {
    assert BitsOf(0, 1) == [false];
    assert BitsOf(1, 2) == [true, false];
    assert BitsOf(2, 3) == [false, true, false];
    assert BitsOf(4, 4) == [false, false, true, false];
    assert BitsOf(9, 5) == [true, false, false, true, false];
    assert BitsOf(19, 6) == [true, true, false, false, true, false];
    assert BitsOf(39, 7) == [true, true, true, false, false, true, false];
    assert BitsOf(79, 8) == [true, true, true, true, false, false, true, false];
  }

  lemma MaskFF()
    ensures BitsOf(0xFF, 8) == [true, true, true, true, true, true, true, true]
  {
    assert BitsOf(1, 1) == [true];
    assert BitsOf(3, 2) == [true, true];
    assert BitsOf(7, 3) == [true, true, true];
    assert BitsOf(15, 4) == [true, true, true, true];
    assert BitsOf(31, 5) == [true, true, true, true, true];
    assert BitsOf(63, 6) == [true, true, true, true, true, true];
    assert BitsOf(127, 7) == [true, true, true, true, true, true, true];
    assert BitsOf(255, 8) == [true, true, true, true, true, true, true, true];
  }

  /** The bits of `lo + 2^k * hi` are those of lo followed by those of hi. */
  lemma {:induction false} BitsConcat(lo: nat, hi: nat, k: nat, w: nat)
    requires lo < Pow(2, k)
    ensures BitsOf(lo + Pow(2, k) * hi, k + w) == BitsOf(lo, k) + BitsOf(hi, w)
    decreases k
  {
    if k > 0 {
      var p := Pow(2, k - 1);
      var x := lo + Pow(2, k) * hi;
      assert x == lo + 2 * (p * hi);
      assert x % 2 == lo % 2 && x / 2 == lo / 2 + p * hi;
      BitsConcat(lo / 2, hi, k - 1, w);
    }
  }

  lemma Mask00()
    ensures BitsOf(0, 8) == [false, false, false, false, false, false, false, false]
  {
    assert BitsOf(0, 1) == [false];
    assert BitsOf(0, 2) == [false, false];
    assert BitsOf(0, 3) == [false, false, false];
    assert BitsOf(0, 4) == [false, false, false, false];
    assert BitsOf(0, 5) == [false, false, false, false, false];
    assert BitsOf(0, 6) == [false, false, false, false, false, false];
    assert BitsOf(0, 7) == [false, false, false, false, false, false, false];
  }

  lemma Mask4000()
    ensures BitsOf(0x4000, 16) == [false, false, false, false, false, false, false, false, false, false, false, false, false, false, true, false]
  {
    assert Pow(2, 8) == 256;
    assert 0 + Pow(2, 8) * 0x40 == 0x4000;
    BitsConcat(0, 0x40, 8, 8);
    Mask40();
    Mask00();
  }

  lemma Mask4FFF()
    ensures BitsOf(0x4FFF, 16) == [true, true, true, true, true, true, true, true, true, true, true, true, false, false, true, false]
  {
    assert Pow(2, 8) == 256;
    BitsConcat(0xFF, 0x4F, 8, 8);
    Mask4F();
    MaskFF();
  }

  /** What `(t | 0x4000) & 0x4FFF` does to the bits of a 16-bit t. */
  lemma VersionMasks(t: nat)
    ensures var v, o := BitsOf(And(Or(t, 0x4000, 16), 0x4FFF, 16), 16), BitsOf(t, 16);
            v[12..] == [false, false, true, false] && v[..12] == o[..12]
  {
    var v, o := BitsOf(And(Or(t, 0x4000, 16), 0x4FFF, 16), 16), BitsOf(t, 16);
    forall i | 0 <= i < 16
      ensures v[i] == (if i < 12 then o[i] else i == 14)
    {
      VersionBit(t, i);
    }
    assert v[..12] == o[..12];
    assert v[12..] == [false, false, true, false];
  }

  lemma VersionBit(t: nat, i: nat)
    requires i < 16
    ensures BitsOf(And(Or(t, 0x4000, 16), 0x4FFF, 16), 16)[i] == (if i < 12 then BitsOf(t, 16)[i] else i == 14)
  {
    Mask4000();
    Mask4FFF();
    var a := Or(t, 0x4000, 16);
    assert BitsOf(a, 16)[i] == (BitsOf(t, 16)[i] || BitsOf(0x4000, 16)[i]);
  }

  /** `~x` on w-bit integers. */
  function Not(x: nat, w: nat): (r: nat)
    ensures r < Pow(2, w)
    ensures BitsOf(r, w) == seq(w, i requires 0 <= i < w => !BitsOf(x, w)[i])
  {
    var s := seq(w, i requires 0 <= i < w => !BitsOf(x, w)[i]);
    BitsFromBits(s);
    FromBits(s)
  }

  /** A w-bit integer is the number its bits denote. */
  lemma {:induction false} FromBitsOf(x: nat, w: nat)
    requires x < Pow(2, w)
    ensures FromBits(BitsOf(x, w)) == x
    decreases w
  {
    if w > 0 {
      FromBitsOf(x / 2, w - 1);
      assert BitsOf(x, w)[1..] == BitsOf(x / 2, w - 1);
    }
  }

  /** Two w-bit integers with the same bits are equal. */
  lemma BitsInjective(x: nat, y: nat, w: nat)
    requires x < Pow(2, w) && y < Pow(2, w)
    requires BitsOf(x, w) == BitsOf(y, w)
    ensures x == y
  {
    FromBitsOf(x, w);
    FromBitsOf(y, w);
  }

  lemma {:induction false} ZeroBits(w: nat, i: nat)
    requires i < w
    ensures !BitsOf(0, w)[i]
    decreases w
  {
    if i > 0 {
      ZeroBits(w - 1, i - 1);
    }
  }

  /** `2^k` has bit k alone set. */
  lemma {:induction false} SingleBit(k: nat, w: nat, i: nat)
    requires i < w
    ensures BitsOf(Pow(2, k), w)[i] == (i == k)
    decreases w
  {
    if k == 0 {
      if i > 0 {
        ZeroBits(w - 1, i - 1);
      }
    } else {
      assert Pow(2, k) % 2 == 0 && Pow(2, k) / 2 == Pow(2, k - 1);
      if i > 0 {
        SingleBit(k - 1, w - 1, i - 1);
      }
    }
  }

  /** Testing a one-bit flag: `(x & 2^k) == 2^k` holds exactly when bit k is
      set, and `(x & 2^k) == 0` exactly when it is clear. */
  lemma FlagTest(x: nat, k: nat, w: nat)
    requires k < w
    ensures And(x, Pow(2, k), w) == Pow(2, k) <==> BitsOf(x, w)[k]
    ensures And(x, Pow(2, k), w) == 0 <==> !BitsOf(x, w)[k]
  {
    PowPositive(2, k);
    if BitsOf(x, w)[k] {
      FlagIsSet(x, k, w);
    } else {
      FlagIsClear(x, k, w);
    }
  }

  /** The bits of `x & 2^k`: bit k of x alone. */
  lemma MaskedBits(x: nat, k: nat, w: nat, i: nat)
    requires k < w && i < w
    ensures BitsOf(And(x, Pow(2, k), w), w)[i] == (BitsOf(x, w)[i] && i == k)
  {
    SingleBit(k, w, i);
  }

  lemma FlagIsSet(x: nat, k: nat, w: nat)
    requires k < w && BitsOf(x, w)[k]
    ensures And(x, Pow(2, k), w) == Pow(2, k) != 0
  {
    var a := And(x, Pow(2, k), w);
    forall i | 0 <= i < w ensures BitsOf(a, w)[i] == BitsOf(Pow(2, k), w)[i] {
      MaskedBits(x, k, w, i);
      SingleBit(k, w, i);
    }
    PowBelow(k, w);
    BitsInjective(a, Pow(2, k), w);
    PowPositive(2, k);
  }

  lemma PowBelow(k: nat, w: nat)
    requires k < w
    ensures Pow(2, k) < Pow(2, w)
  {
    PowMonotone(2, k + 1, w);
    PowPositive(2, k);
    assert Pow(2, k + 1) == 2 * Pow(2, k);
  }

  lemma FlagIsClear(x: nat, k: nat, w: nat)
    requires k < w && !BitsOf(x, w)[k]
    ensures And(x, Pow(2, k), w) == 0
  {
    var a := And(x, Pow(2, k), w);
    forall i | 0 <= i < w ensures BitsOf(a, w)[i] == BitsOf(0, w)[i] {
      MaskedBits(x, k, w, i);
      ZeroBits(w, i);
    }
    PowPositive(2, w);
    BitsInjective(a, 0, w);
  }

  /** Setting a one-bit flag with `|=` sets bit k and keeps every other bit. */
  lemma FlagSet(x: nat, k: nat, w: nat, i: nat)
    requires k < w && i < w
    ensures BitsOf(Or(x, Pow(2, k), w), w)[i] == (i == k || BitsOf(x, w)[i])
  {
    SingleBit(k, w, i);
  }
}

/** Bytes and the little-endian layout `memcpy` gives integers on x86-64. */
module LittleEndian {
  import opened Power

  type Byte = x: int | 0 <= x < 256

  /** The integer a little-endian run of bytes denotes (`memcpy` into an integer). */
  function LE(bs: seq<Byte>): nat
  {
    if |bs| == 0 then 0 else bs[0] + 256 * LE(bs[1..])
  }

  /** The k low bytes of v, least significant first (`memcpy` out of an integer). */
  function LEBytes(v: nat, k: nat): (bs: seq<Byte>)
    ensures |bs| == k
  {
    if k == 0 then [] else [v % 256] + LEBytes(v / 256, k - 1)
  }

  lemma {:induction false} LEBound(bs: seq<Byte>)
    ensures LE(bs) < Pow(256, |bs|)
    decreases |bs|
  {
    if |bs| > 0 {
      LEBound(bs[1..]);
    }
  }

  /** Writing the integer of a byte run back out restores the run. */
  lemma {:induction false} LERoundTrip(bs: seq<Byte>)
    ensures LEBytes(LE(bs), |bs|) == bs
    decreases |bs|
  {
    if |bs| > 0 {
      LERoundTrip(bs[1..]);
      assert LE(bs) % 256 == bs[0] && LE(bs) / 256 == LE(bs[1..]);
      assert bs == [bs[0]] + bs[1..];
    }
  }

  /** Zero bytes at the top add nothing. */
  lemma {:induction false} LETrailingZeros(bs: seq<Byte>, m: nat)
    requires m <= |bs| && forall i :: m <= i < |bs| ==> bs[i] == 0
    ensures LE(bs) == LE(bs[..m])
    decreases |bs|
  {
    if |bs| > 0 {
      LETrailingZeros(bs[1..], if m > 0 then m - 1 else 0);
      if m > 0 {
        assert bs[1..][..m - 1] == bs[..m][1..];
      } else {
        assert bs[0] == 0 && bs[..m] == [];
      }
    }
  }

  lemma ModStep(v: nat, p: nat)
    requires p > 0
    ensures v % (256 * p) == v % 256 + 256 * ((v / 256) % p)
  {
    var q, r0 := v / 256, v % 256;
    var a, b := q / p, q % p;
    assert v == 256 * q + r0;
    assert q == a * p + b;
    assert v == (256 * p) * a + (256 * b + r0);
    assert 0 <= 256 * b + r0 < 256 * p;
    ModUnique(v, 256 * p, a, 256 * b + r0);
  }

  lemma ModUnique(v: int, n: int, a: int, y: int)
    requires n > 0 && 0 <= y < n && v == n * a + y
    ensures v % n == y
  {
    var q := v / n;
    assert n * (a - q) == v % n - y;
    MulSmall(n, a - q);
  }

  /** A multiple of n strictly between -n and n is 0. */
  lemma MulSmall(n: int, d: int)
    requires n > 0 && -n < n * d < n
    ensures d == 0
  {
    if d >= 1 {
      MulGrow(n, d);
    } else if d <= -1 {
      MulGrow(n, -d);
    }
  }

  lemma MulGrow(n: int, d: int)
    requires n > 0 && d >= 1
    ensures n * d >= n
  {
  }

  /** The number of values m bytes hold, 256^m. */
  function ByteRange(m: nat): (r: nat)
    ensures r == Pow(256, m) && r > 0
  {
    PowPositive(256, m);
    Pow(256, m)
  }

  /** The first m of the k bytes `memcpy` writes out of v denote v mod 256^m. */
  lemma {:induction false} LEBytesPrefix(v: nat, k: nat, m: nat)
    requires m <= k
    ensures LE(LEBytes(v, k)[..m]) == v % ByteRange(m)
    decreases m
  {
    if m > 0 {
      var bs := LEBytes(v, k);
      LEBytesPrefix(v / 256, k - 1, m - 1);
      assert bs[..m][1..] == LEBytes(v / 256, k - 1)[..m - 1];
      PowPositive(256, m - 1);
      ModStep(v, Pow(256, m - 1));
    }
  }

  lemma {:induction false} LEBytesValue(v: nat, k: nat)
    requires v < Pow(256, k)
    ensures LE(LEBytes(v, k)) == v
    decreases k
  {
    if k > 0 {
      LEBytesValue(v / 256, k - 1);
      assert LEBytes(v, k)[1..] == LEBytes(v / 256, k - 1);
    }
  }
}
