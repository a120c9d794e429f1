/** Exponentiation over the naturals, shared by the limb arithmetic of the
    HTTP chunk-size numbers and by the hexadecimal text conversions. */
module Power {

  function Pow(b: nat, e: nat): nat
  {
    if e == 0 then 1 else b * Pow(b, e - 1)
  }

  lemma PowPositive(b: nat, e: nat)
    requires b > 0
    ensures Pow(b, e) > 0
  {
    if e > 0 {
      PowPositive(b, e - 1);
    }
  }

  lemma {:induction false} PowAdd(b: nat, e1: nat, e2: nat)
    ensures Pow(b, e1 + e2) == Pow(b, e1) * Pow(b, e2)
    decreases e1
  {
    if e1 > 0 {
      PowAdd(b, e1 - 1, e2);
      calc {
        Pow(b, e1 + e2);
        b * Pow(b, e1 - 1 + e2);
        b * (Pow(b, e1 - 1) * Pow(b, e2));
        (b * Pow(b, e1 - 1)) * Pow(b, e2);
      }
    }
  }

  lemma {:induction false} PowMonotone(b: nat, e1: nat, e2: nat)
    requires b > 0 && e1 <= e2
    ensures Pow(b, e1) <= Pow(b, e2)
    decreases e2
  {
    if e1 < e2 {
      PowMonotone(b, e1, e2 - 1);
      PowPositive(b, e2 - 1);
    }
  }

  lemma ModBelow(x: int, n: int)
    requires 0 <= x < n
    ensures x % n == x
  {
  }

  lemma ModOnce(x: int, n: int)
    requires n <= x < 2 * n
    ensures x % n == x - n
  {
    assert x == n * 1 + (x - n);
  }
}

/** Character classes of the "C" locale, which is the locale the controller's
    streams use: `std::isspace` and `std::toupper` on single bytes. */
module CLocale {

  /** The six whitespace characters of the C locale: space, \t, \n, \v, \f, \r. */
  predicate IsSpace(c: char)
  {
    c == ' ' || c == '\t' || c == '\n' || c == '\U{B}' || c == '\U{C}' || c == '\r'
  }

  /** `std::toupper` in the C locale: only 'a'..'z' change. */
  function ToUpper(c: char): (u: char)
    ensures 'a' <= c <= 'z' ==> 'A' <= u <= 'Z' && u as int == c as int - 32
    ensures !('a' <= c <= 'z') ==> u == c
  {
    if 'a' <= c <= 'z' then (c as int - 32) as char else c
  }

  function UpperCase(s: seq<char>): (u: seq<char>)
    ensures |u| == |s|
    ensures forall i :: 0 <= i < |s| ==> u[i] == ToUpper(s[i])
  {
    seq(|s|, i requires 0 <= i < |s| => ToUpper(s[i]))
  }
}

/** Hexadecimal digits as the controller reads and writes them: `std::from_chars`
    with base 16 (either case, longest digit prefix, no sign, no "0x") and
    `std::hex` output (lower case, optionally zero-padded with `std::setw`). */
module Hex {
  import opened Wrappers
  import opened Power

  predicate IsHexDigit(c: char)
  {
    ('0' <= c <= '9') || ('a' <= c <= 'f') || ('A' <= c <= 'F')
  }

  predicate IsLowerHexDigit(c: char)
  {
    ('0' <= c <= '9') || ('a' <= c <= 'f')
  }

  predicate AllHex(s: seq<char>)
  {
    forall i :: 0 <= i < |s| ==> IsHexDigit(s[i])
  }

  function DigitValue(c: char): (d: nat)
    requires IsHexDigit(c)
    ensures d < 16
  {
    if '0' <= c <= '9' then c as int - '0' as int
    else if 'a' <= c <= 'f' then c as int - 'a' as int + 10
    else c as int - 'A' as int + 10
  }

  function LowerDigit(d: nat): (c: char)
    requires d < 16
    ensures IsLowerHexDigit(c) && IsHexDigit(c) && DigitValue(c) == d
  {
    if d < 10 then ('0' as int + d) as char else ('a' as int + d - 10) as char
  }

  /** The number a string of hex digits denotes, most significant digit first. */
  function HexValue(s: seq<char>): nat
    requires AllHex(s)
  {
    if |s| == 0 then 0 else HexValue(s[..|s| - 1]) * 16 + DigitValue(s[|s| - 1])
  }

  /** Number of leading hex digits of `s`: how far `std::from_chars` reads. */
  function HexPrefixLen(s: seq<char>): (n: nat)
    ensures n <= |s| && AllHex(s[..n])
    ensures n < |s| ==> !IsHexDigit(s[n])
  {
    if |s| == 0 || !IsHexDigit(s[0]) then 0
    else
      var n := 1 + HexPrefixLen(s[1..]);
      assert s[..n] == [s[0]] + s[1..][..n - 1];
      n
  }

  /** `std::from_chars(first, last, v, 16)`: fails (None) when the text does not
      start with a hex digit, otherwise yields the value of the longest digit
      prefix. Range errors cannot occur for the widths the controller uses
      (at most 16 digits into a 64-bit value, see `HexValueBound`). */
  function FromChars(s: seq<char>): (r: Option<nat>)
    ensures r.None? <==> (|s| == 0 || !IsHexDigit(s[0]))
    ensures AllHex(s) && |s| > 0 ==> r == Some(HexValue(s))
  {
    var n := HexPrefixLen(s);
    if n == 0 then None
    else
      AllHexPrefixLen(s);
      assert AllHex(s) ==> s[..n] == s;
      Some(HexValue(s[..n]))
  }

  lemma {:induction false} AllHexPrefixLen(s: seq<char>)
    ensures AllHex(s) ==> HexPrefixLen(s) == |s|
    decreases |s|
  {
    if |s| > 0 && AllHex(s) {
      assert AllHex(s[1..]) by {
        forall i | 0 <= i < |s[1..]| ensures IsHexDigit(s[1..][i]) {
          assert s[1..][i] == s[i + 1];
        }
      }
      AllHexPrefixLen(s[1..]);
    }
  }

  /** Zero-padded lower-case rendering of `n` in exactly `w` digits
      (`std::setfill('0') << std::setw(w) << std::hex << n` for `n < 16^w`). */
  function PadHex(n: nat, w: nat): (s: seq<char>)
    ensures |s| == w
    ensures forall i :: 0 <= i < |s| ==> IsLowerHexDigit(s[i]) && IsHexDigit(s[i])
  {
    if w == 0 then [] else PadHex(n / 16, w - 1) + [LowerDigit(n % 16)]
  }

  /** Unpadded lower-case rendering (`os << std::hex << n`): "0" for zero and no
      leading zero otherwise. */
  function MinHex(n: nat): (s: seq<char>)
    ensures |s| >= 1
    ensures forall i :: 0 <= i < |s| ==> IsLowerHexDigit(s[i]) && IsHexDigit(s[i])
  {
    if n < 16 then [LowerDigit(n)] else MinHex(n / 16) + [LowerDigit(n % 16)]
  }

  lemma {:induction false} HexValueBound(s: seq<char>)
    requires AllHex(s)
    ensures HexValue(s) < Pow(16, |s|)
    decreases |s|
  {
    if |s| > 0 {
      HexValueBound(s[..|s| - 1]);
    }
  }

  lemma {:induction false} HexValueAppend(a: seq<char>, b: seq<char>)
    requires AllHex(a) && AllHex(b)
    ensures AllHex(a + b)
    ensures HexValue(a + b) == HexValue(a) * Pow(16, |b|) + HexValue(b)
    decreases |b|
  {
    var ab := a + b;
    assert AllHex(ab) by {
      forall i | 0 <= i < |ab| ensures IsHexDigit(ab[i]) {
        if i < |a| { assert ab[i] == a[i]; } else { assert ab[i] == b[i - |a|]; }
      }
    }
    if |b| == 0 {
      assert ab == a;
    } else {
      var b' := b[..|b| - 1];
      assert ab[..|ab| - 1] == a + b';
      assert AllHex(b') by {
        forall i | 0 <= i < |b'| ensures IsHexDigit(b'[i]) { assert b'[i] == b[i]; }
      }
      HexValueAppend(a, b');
      var x, y, p, d := HexValue(a), HexValue(b'), Pow(16, |b'|), DigitValue(b[|b| - 1]);
      assert HexValue(ab) == HexValue(a + b') * 16 + d;
      assert HexValue(b) == y * 16 + d;
      assert Pow(16, |b|) == 16 * p;
      ShiftDigit(x, y, p, d);
    }
  }

  lemma ShiftDigit(x: nat, y: nat, p: nat, d: nat)
    ensures (x * p + y) * 16 + d == x * (16 * p) + (y * 16 + d)
  {
  }

  lemma {:induction false} PadHexValue(n: nat, w: nat)
    requires n < Pow(16, w)
    ensures HexValue(PadHex(n, w)) == n
    decreases w
  {
    if w > 0 {
      var p := PadHex(n / 16, w - 1);
      assert PadHex(n, w)[..w - 1] == p;
      PadHexValue(n / 16, w - 1);
    }
  }

  lemma {:induction false} MinHexValue(n: nat)
    ensures HexValue(MinHex(n)) == n
    decreases n
  {
    if n >= 16 {
      var p := MinHex(n / 16);
      assert MinHex(n)[..|MinHex(n)| - 1] == p;
      MinHexValue(n / 16);
    }
  }

  /** A number below 16^k takes at most k digits. */
  lemma {:induction false} MinHexLength(n: nat, k: nat)
    requires n < Pow(16, k)
    ensures |MinHex(n)| <= k || (n == 0 && k == 0)
    decreases n
  {
    if n >= 16 {
      assert k >= 2;
      assert n / 16 < Pow(16, k - 1);
      MinHexLength(n / 16, k - 1);
    } else if k == 0 {
      assert Pow(16, 0) == 1;
    }
  }

  /** A number of at least 16^k takes more than k digits. */
  lemma {:induction false} MinHexLonger(n: nat, k: nat)
    requires n >= Pow(16, k)
    ensures |MinHex(n)| > k
    decreases k
  {
    if k > 0 {
      PowPositive(16, k - 1);
      assert n >= 16;
      assert n / 16 >= Pow(16, k - 1);
      MinHexLonger(n / 16, k - 1);
    }
  }

  /** Only zero is written with a leading '0'. */
  lemma {:induction false} MinHexLead(n: nat)
    ensures MinHex(n)[0] == '0' <==> n == 0
    decreases n
  {
    if n >= 16 {
      MinHexLead(n / 16);
      assert MinHex(n)[0] == MinHex(n / 16)[0];
    }
  }
}

/** Decimal text as `std::to_string` and `operator<<` write integers. */
module Decimal {
  import opened Wrappers

  predicate IsDigit(c: char)
  {
    '0' <= c <= '9'
  }

  predicate AllDigits(s: seq<char>)
  {
    forall i :: 0 <= i < |s| ==> IsDigit(s[i])
  }

  function DigitChar(d: nat): (c: char)
    requires d < 10
    ensures IsDigit(c) && c as int - '0' as int == d
  {
    ('0' as int + d) as char
  }

  /** The number a string of decimal digits denotes, most significant digit first. */
  function Value(s: seq<char>): nat
    requires AllDigits(s)
  {
    if |s| == 0 then 0 else Value(s[..|s| - 1]) * 10 + (s[|s| - 1] as int - '0' as int)
  }

  /** `std::to_string(n)` for an unsigned `n`: "0" for zero and no leading
      zero otherwise. */
  function Text(n: nat): (s: seq<char>)
    ensures |s| >= 1 && AllDigits(s)
  {
    if n < 10 then [DigitChar(n)] else Text(n / 10) + [DigitChar(n % 10)]
  }

  /** `std::to_string(i)` for a signed `i`: a '-' before the magnitude when
      negative. */
  function SignedText(i: int): (s: seq<char>)
    ensures |s| >= 1
  {
    if i < 0 then "-" + Text(-i) else Text(i)
  }

  /** Reading back: an optional '-' followed by at least one digit. */
  function ReadSigned(s: seq<char>): (r: Option<int>)
    ensures r.Some? <==> (|s| > 0 && s[0] != '-' && AllDigits(s))
                         || (|s| > 1 && s[0] == '-' && AllDigits(s[1..]))
  {
    if |s| > 1 && s[0] == '-' && AllDigits(s[1..]) then Some(0 - Value(s[1..]) as int)
    else if |s| > 0 && s[0] != '-' && AllDigits(s) then Some(Value(s))
    else None
  }

  lemma {:induction false} TextValue(n: nat)
    ensures Value(Text(n)) == n
    decreases n
  {
    if n >= 10 {
      var p := Text(n / 10);
      assert Text(n)[..|Text(n)| - 1] == p;
      TextValue(n / 10);
    }
  }

  /** Only zero is written with a leading '0', so the text is the shortest. */
  lemma {:induction false} TextLead(n: nat)
    ensures Text(n)[0] == '0' <==> n == 0
    decreases n
  {
    if n >= 10 {
      TextLead(n / 10);
      assert Text(n)[0] == Text(n / 10)[0];
    }
  }

  /** Signed text reads back as the number written. */
  lemma SignedRoundTrip(i: int)
    ensures ReadSigned(SignedText(i)) == Some(i)
  {
    if i < 0 {
      var s := SignedText(i);
      assert s[1..] == Text(-i);
      TextValue(-i);
    } else {
      TextValue(i);
    }
  }
}
