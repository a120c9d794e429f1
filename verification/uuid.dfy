/** Version 4 UUIDs (section 4.4 of RFC 4122) as the controller builds,
    writes, reads and compares them (uuid.cpp). A UUID is 16 bytes; the
    multi-byte fields are copied into integers with `memcpy`, so they are
    read little-endian (the platform is x86-64). */
module Uuid {
  import opened Wrappers
  import opened Power
  import opened Hex
  import opened Bits
  import opened LittleEndian

  type Uuid = b: seq<Byte> | |b| == 16 witness seq(16, i => 0)

  /** `Uuid()`: sixteen zero bytes. */
  const Nil: Uuid := seq(16, i => 0)

  lemma Pow256(k: nat)
    ensures Pow(256, k) == Pow(16, 2 * k)
  {
    if k > 0 {
      Pow256(k - 1);
      assert Pow(16, 2 * k) == 16 * (16 * Pow(16, 2 * k - 2));
    }
  }

  // ---------------------------------------------------------------------------
  // Fields (uuid.cpp:84-113)

  /** Bytes 0-3. */
  function TimeLow(u: Uuid): (t: nat)
    ensures t < Pow(16, 8) && LEBytes(t, 4) == u[0..4]
  {
    LEBound(u[0..4]);
    LERoundTrip(u[0..4]);
    Pow256(4);
    LE(u[0..4])
  }

  /** Bytes 4-5. */
  function TimeMid(u: Uuid): (t: nat)
    ensures t < Pow(16, 4) && LEBytes(t, 2) == u[4..6]
  {
    LEBound(u[4..6]);
    LERoundTrip(u[4..6]);
    Pow256(2);
    LE(u[4..6])
  }

  /** Bytes 6-7. */
  function TimeHiAndVersion(u: Uuid): (t: nat)
    ensures t < Pow(16, 4) && LEBytes(t, 2) == u[6..8]
  {
    LEBound(u[6..8]);
    LERoundTrip(u[6..8]);
    Pow256(2);
    LE(u[6..8])
  }

  /** Byte 8. */
  function ClockSeqHiAndReserved(u: Uuid): Byte
  {
    u[8]
  }

  /** Byte 9. */
  function ClockSeqLow(u: Uuid): Byte
  {
    u[9]
  }

  /** Bytes 10-15. */
  function Node(u: Uuid): (n: seq<Byte>)
    ensures |n| == 6 && u == u[..10] + n
  {
    u[10..]
  }

  // ---------------------------------------------------------------------------
  // The version 4 constructor (uuid.cpp:47-73)

  /** `clock_seq_hi_and_reserved |= 0x80; ... &= 0xbf`: bit 7 set, bit 6
      cleared, bits 0-5 kept. */
  function SetVariant(b: Byte): (r: Byte)
    ensures var v, o := BitsOf(r, 8), BitsOf(b, 8); v[6..] == [false, true] && v[..6] == o[..6]
  {
    Mask80();
    MaskBF();
    assert Pow(2, 8) == 256;
    var a := Or(b, 0x80, 8);
    var r := And(a, 0xBF, 8);
    var v, o, av := BitsOf(r, 8), BitsOf(b, 8), BitsOf(a, 8);
    assert forall i :: 0 <= i < 6 ==> v[i] == av[i] && av[i] == o[i];
    assert v[..6] == o[..6];
    assert av[7] && v[7] && !v[6];
    assert v[6..] == [false, true];
    r
  }

  /** `time_hi_and_version |= 0x4000; ... &= 0x4FFF` on the 16-bit field:
      bit 14 set, bits 12, 13 and 15 cleared, bits 0-11 kept. */
  function SetVersion(t: nat): (r: nat)
    ensures r < 0x1_0000
    ensures var v, o := BitsOf(r, 16), BitsOf(t, 16); v[12..] == [false, false, true, false] && v[..12] == o[..12]
  {
    Pow2Is16();
    VersionMasks(t);
    And(Or(t, 0x4000, 16), 0x4FFF, 16)
  }

  lemma Pow2Is16()
    ensures Pow(2, 16) == 0x1_0000
  {
    PowAdd(2, 8, 8);
    assert Pow(2, 8) == 256;
  }

  /** `Uuid(Uuid::v4)` on the 16 random bytes `getrandom` delivered: the
      variant bits 10 at the top of byte 8 and the version number 4 in the top
      nibble of `time_hi_and_version`; every other bit as delivered. */
  function V4(random: Uuid): (u: Uuid)
    ensures forall i :: 0 <= i < 16 && i != 6 && i != 7 && i != 8 ==> u[i] == random[i]
    ensures var v, o := BitsOf(u[8], 8), BitsOf(random[8], 8); v[6..] == [false, true] && v[..6] == o[..6]
    ensures var v, o := BitsOf(TimeHiAndVersion(u), 16), BitsOf(TimeHiAndVersion(random), 16);
            v[12..] == [false, false, true, false] && v[..12] == o[..12]
  {
    var t := SetVersion(TimeHiAndVersion(random));
    var hi := LEBytes(t, 2);
    var b := SetVariant(random[8]);
    Spliced(random, hi, b);
    var u: Uuid := random[..6] + hi + [b] + random[9..];
    TimeHiOf(u, t);
    u
  }

  /** Bytes 6-7 and 8 replaced, the rest kept. */
  lemma Spliced(random: Uuid, hi: seq<Byte>, b: Byte)
    requires |hi| == 2
    ensures var u := random[..6] + hi + [b] + random[9..];
            |u| == 16 && u[6..8] == hi && u[8] == b
            && forall i :: 0 <= i < 16 && i != 6 && i != 7 && i != 8 ==> u[i] == random[i]
  {
  }

  /** The field read back from bytes 6-7 is the value written there. */
  lemma TimeHiOf(u: Uuid, t: nat)
    requires t < 0x1_0000 && u[6..8] == LEBytes(t, 2)
    ensures TimeHiAndVersion(u) == t
  {
    assert Pow(256, 2) == 0x1_0000 by { Pow256(2); }
    LEBytesValue(t, 2);
  }

  // ---------------------------------------------------------------------------
  // Text (uuid.cpp:16-24, 115-123)

  /** `operator<<(ostream&, const Node&)`: three 16-bit groups, 4 digits each. */
  function NodeText(n: seq<Byte>): (t: seq<char>)
    requires |n| == 6
    ensures |t| == 12
  {
    PadHex(LE(n[0..2]), 4) + PadHex(LE(n[2..4]), 4) + PadHex(LE(n[4..6]), 4)
  }

  /** `operator<<(ostream&, const Uuid&)`: the fields zero-padded to 8, 4, 4,
      2, 2 digits, then the node: 32 lower-case hex digits. */
  function ToText(u: Uuid): (t: seq<char>)
    ensures |t| == 32 && forall i :: 0 <= i < |t| ==> IsLowerHexDigit(t[i])
  {
    var t := PadHex(TimeLow(u), 8) + PadHex(TimeMid(u), 4) + PadHex(TimeHiAndVersion(u), 4)
             + PadHex(ClockSeqHiAndReserved(u), 2) + PadHex(ClockSeqLow(u), 2) + NodeText(Node(u));
    assert forall i :: 0 <= i < |t| ==> IsLowerHexDigit(t[i]) by {
      forall i | 0 <= i < |t| ensures IsLowerHexDigit(t[i]) {
        LowerPieces(u, i);
      }
    }
    t
  }

  lemma LowerPieces(u: Uuid, i: nat)
    requires i < 32
    ensures var t := PadHex(TimeLow(u), 8) + PadHex(TimeMid(u), 4) + PadHex(TimeHiAndVersion(u), 4)
                     + PadHex(ClockSeqHiAndReserved(u), 2) + PadHex(ClockSeqLow(u), 2) + NodeText(Node(u));
            IsLowerHexDigit(t[i])
  {
    var n := Node(u);
    var a, b, c := PadHex(LE(n[0..2]), 4), PadHex(LE(n[2..4]), 4), PadHex(LE(n[4..6]), 4);
    if i >= 20 {
      var j := i - 20;
      if j < 4 { assert NodeText(n)[j] == a[j]; }
      else if j < 8 { assert NodeText(n)[j] == b[j - 4]; }
      else { assert NodeText(n)[j] == c[j - 8]; }
    }
  }

  // ---------------------------------------------------------------------------
  // Reading (uuid.cpp:26-39, 75-82, 125-182)

  /** A string stream: its text, the read position, and whether a read has
      already come up short (after which reads extract nothing). */
  datatype Stream = Stream(text: seq<char>, pos: nat, failed: bool)

  /** `is.read(buf, n)`: the available characters, up to n, overwrite the
      front of the buffer; the rest of the buffer keeps its old contents. */
  function ReadChars(st: Stream, buf: seq<char>, n: nat): (r: (Stream, seq<char>))
    requires st.pos <= |st.text| && n <= |buf|
    ensures r.0.text == st.text && r.0.pos <= |r.0.text| && |r.1| == |buf|
  {
    if st.failed then (st, buf)
    else
      var k := if |st.text| - st.pos < n then |st.text| - st.pos else n;
      (Stream(st.text, st.pos + k, k < n), st.text[st.pos..st.pos + k] + buf[k..])
  }

  /** `std::from_chars` on the first n characters of the buffer into a
      variable initialised to 0: the value of the leading hex digits, or 0
      when there are none (the failure is only logged). */
  function ParseField(buf: seq<char>, n: nat): (v: nat)
    requires n <= |buf|
    ensures v < Pow(16, n)
  {
    match FromChars(buf[..n])
    case None => PowPositive(16, n); 0
    case Some(x) =>
      var k := HexPrefixLen(buf[..n]);
      HexValueBound(buf[..n][..k]);
      PowMonotone(16, k, n);
      assert FromChars(buf[..n]) == Some(HexValue(buf[..n][..k]));
      x
  }

  /** One field: read n characters into the buffer and convert them. */
  function ReadField(st: Stream, buf: seq<char>, n: nat): (r: (Stream, seq<char>, nat))
    requires st.pos <= |st.text| && n <= |buf|
    ensures r.0.text == st.text && r.0.pos <= |r.0.text| && |r.1| == |buf| && r.2 < Pow(16, n)
  {
    var (st', buf') := ReadChars(st, buf, n);
    (st', buf', ParseField(buf', n))
  }

  /** `operator>>(istream&, Node&)`: three 4-digit groups through a fresh
      4-character buffer. */
  function ReadNode(st: Stream): (r: (Stream, seq<Byte>))
    requires st.pos <= |st.text|
    ensures r.0.text == st.text && r.0.pos <= |r.0.text| && |r.1| == 6
  {
    var (s1, b1, n0) := ReadField(st, "\0\0\0\0", 4);
    var (s2, b2, n1) := ReadField(s1, b1, 4);
    var (s3, b3, n2) := ReadField(s2, b2, 4);
    (s3, LEBytes(n0, 2) + LEBytes(n1, 2) + LEBytes(n2, 2))
  }

  /** The five fields before the node, through one 8-character buffer, as
      the bytes they are copied into: bytes 0-9. */
  function ReadHead(st: Stream): (r: (Stream, seq<Byte>))
    requires st.pos <= |st.text|
    ensures r.0.text == st.text && r.0.pos <= |r.0.text| && |r.1| == 10
  {
    var (s1, b1, tl) := ReadField(st, "\0\0\0\0\0\0\0\0", 8);
    var (s2, b2, tm) := ReadField(s1, b1, 4);
    var (s3, b3, th) := ReadField(s2, b2, 4);
    var (s4, b4, cs) := ReadField(s3, b3, 2);
    var (s5, b5, cl) := ReadField(s4, b4, 2);
    assert Pow(16, 2) == 256;
    (s5, LEBytes(tl, 4) + LEBytes(tm, 2) + LEBytes(th, 2) + [cs] + [cl])
  }

  /** `operator>>(istream&, Uuid&)` on a fresh stream over `s`. Every byte of
      the target is overwritten, so `Uuid(Uuid::v4, s)` does not depend on
      the random bytes it starts from and is a function of `s` alone. */
  function FromString(s: seq<char>): (u: Uuid)
  {
    var (st, head) := ReadHead(Stream(s, 0, false));
    var (_, node) := ReadNode(st);
    head + node
  }

  // ---------------------------------------------------------------------------
  // The text round trip

  /** A field written zero-padded in exactly n digits is read back whole. */
  lemma ReadPadded(st: Stream, buf: seq<char>, v: nat, n: nat)
    requires !st.failed && st.pos + n <= |st.text| && 0 < n <= |buf|
    requires st.text[st.pos..st.pos + n] == PadHex(v, n) && v < Pow(16, n)
    ensures ReadField(st, buf, n) == (Stream(st.text, st.pos + n, false), PadHex(v, n) + buf[n..], v)
  {
    var buf' := PadHex(v, n) + buf[n..];
    assert ReadChars(st, buf, n) == (Stream(st.text, st.pos + n, false), buf');
    assert buf'[..n] == PadHex(v, n);
    PadHexValue(v, n);
  }

  /** The positions of the pieces of the text form. */
  lemma TextPieces(u: Uuid)
    ensures var t, n := ToText(u), Node(u);
            t[0..8] == PadHex(TimeLow(u), 8) && t[8..12] == PadHex(TimeMid(u), 4)
            && t[12..16] == PadHex(TimeHiAndVersion(u), 4) && t[16..18] == PadHex(u[8], 2)
            && t[18..20] == PadHex(u[9], 2) && t[20..24] == PadHex(LE(n[0..2]), 4)
            && t[24..28] == PadHex(LE(n[2..4]), 4) && t[28..32] == PadHex(LE(n[4..6]), 4)
  {
    var t, n := ToText(u), Node(u);
    var p1, p2, p3 := PadHex(TimeLow(u), 8), PadHex(TimeMid(u), 4), PadHex(TimeHiAndVersion(u), 4);
    var p4, p5, p6 := PadHex(u[8], 2), PadHex(u[9], 2), NodeText(n);
    assert t == p1 + p2 + p3 + p4 + p5 + p6;
    assert t[20..32] == p6;
    assert p6[0..4] == PadHex(LE(n[0..2]), 4);
    assert p6[4..8] == PadHex(LE(n[2..4]), 4);
    assert p6[8..12] == PadHex(LE(n[4..6]), 4);
  }

  /** A 16-bit node group fits its four digits and is restored by `memcpy`. */
  lemma NodeGroup(g: seq<Byte>)
    requires |g| == 2
    ensures LE(g) < Pow(16, 4) && LEBytes(LE(g), 2) == g
  {
    LEBound(g);
    LERoundTrip(g);
    Pow256(2);
  }

  lemma ReadNodeText(t: seq<char>, n: seq<Byte>)
    requires |t| == 32 && |n| == 6
    requires t[20..24] == PadHex(LE(n[0..2]), 4) && t[24..28] == PadHex(LE(n[2..4]), 4)
    requires t[28..32] == PadHex(LE(n[4..6]), 4)
    ensures ReadNode(Stream(t, 20, false)).1 == n
  {
    NodeGroup(n[0..2]);
    NodeGroup(n[2..4]);
    NodeGroup(n[4..6]);
    var b0: seq<char> := "\0\0\0\0";
    ReadPadded(Stream(t, 20, false), b0, LE(n[0..2]), 4);
    var b1 := PadHex(LE(n[0..2]), 4) + b0[4..];
    ReadPadded(Stream(t, 24, false), b1, LE(n[2..4]), 4);
    var b2 := PadHex(LE(n[2..4]), 4) + b1[4..];
    ReadPadded(Stream(t, 28, false), b2, LE(n[4..6]), 4);
    assert n == n[0..2] + n[2..4] + n[4..6];
  }

  lemma ReadHeadText(t: seq<char>, tl: nat, tm: nat, th: nat, cs: Byte, cl: Byte)
    requires |t| == 32 && tl < Pow(16, 8) && tm < Pow(16, 4) && th < Pow(16, 4)
    requires t[0..8] == PadHex(tl, 8) && t[8..12] == PadHex(tm, 4) && t[12..16] == PadHex(th, 4)
    requires t[16..18] == PadHex(cs, 2) && t[18..20] == PadHex(cl, 2)
    ensures ReadHead(Stream(t, 0, false))
            == (Stream(t, 20, false), LEBytes(tl, 4) + LEBytes(tm, 2) + LEBytes(th, 2) + [cs] + [cl])
  {
    var b0: seq<char> := "\0\0\0\0\0\0\0\0";
    assert Pow(16, 2) == 256;
    ReadPadded(Stream(t, 0, false), b0, tl, 8);
    var b1 := PadHex(tl, 8) + b0[8..];
    ReadPadded(Stream(t, 8, false), b1, tm, 4);
    var b2 := PadHex(tm, 4) + b1[4..];
    ReadPadded(Stream(t, 12, false), b2, th, 4);
    var b3 := PadHex(th, 4) + b2[4..];
    ReadPadded(Stream(t, 16, false), b3, cs, 2);
    var b4 := PadHex(cs, 2) + b3[2..];
    ReadPadded(Stream(t, 18, false), b4, cl, 2);
  }

  lemma HeadSplit(u: seq<Byte>)
    requires |u| >= 10
    ensures u[..10] == u[0..4] + u[4..6] + u[6..8] + [u[8]] + [u[9]]
  {
    var r := u[0..4] + u[4..6] + u[6..8] + [u[8]] + [u[9]];
    assert forall i :: 0 <= i < 10 ==> r[i] == u[i];
  }

  /** Reading back what `operator<<` wrote restores the UUID. */
  lemma TextRoundTrip(u: Uuid)
    ensures FromString(ToText(u)) == u
  {
    var t := ToText(u);
    TextPieces(u);
    ReadHeadText(t, TimeLow(u), TimeMid(u), TimeHiAndVersion(u), u[8], u[9]);
    ReadNodeText(t, Node(u));
    var head := ReadHead(Stream(t, 0, false));
    assert head.0 == Stream(t, 20, false);
    assert head.1 == u[..10] by {
      assert LEBytes(TimeLow(u), 4) == u[0..4];
      assert LEBytes(TimeMid(u), 2) == u[4..6];
      assert LEBytes(TimeHiAndVersion(u), 2) == u[6..8];
      HeadSplit(u);
    }
    assert FromString(t) == head.1 + ReadNode(head.0).1;
  }

  /** A read at the end of the text, or after an earlier short read, leaves
      the buffer as it was; when that buffer does not start with a digit the
      conversion fails and the field keeps its 0. */
  lemma NothingRead(st: Stream, buf: seq<char>, n: nat)
    requires st.pos == |st.text| && 0 < n <= |buf| && !IsHexDigit(buf[0])
    ensures ReadField(st, buf, n) == (Stream(st.text, st.pos, true), buf, 0)
  {
    if !st.failed {
      assert st.text[st.pos..st.pos] + buf[0..] == buf;
    }
    assert buf[..n][0] == buf[0];
  }

  lemma {:induction false} ZeroBytes(k: nat)
    ensures LEBytes(0, k) == seq(k, i => 0)
  {
    if k > 0 {
      ZeroBytes(k - 1);
    }
  }

  /** On the empty text every field of the head reads nothing. */
  lemma EmptyFields()
    ensures ReadHead(Stream("", 0, false))
         == (Stream("", 0, true), LEBytes(0, 4) + LEBytes(0, 2) + LEBytes(0, 2) + [0] + [0])
  {
    var st, failed := Stream("", 0, false), Stream("", 0, true);
    var b8: seq<char> := "\0\0\0\0\0\0\0\0";
    NothingRead(st, b8, 8);
    NothingRead(failed, b8, 4);
    NothingRead(failed, b8, 2);
    var (s1, b1, tl) := ReadField(st, b8, 8);
    var (s2, b2, tm) := ReadField(s1, b1, 4);
    var (s3, b3, th) := ReadField(s2, b2, 4);
    var (s4, b4, cs) := ReadField(s3, b3, 2);
    var (s5, b5, cl) := ReadField(s4, b4, 2);
    assert ReadHead(st) == (s5, LEBytes(tl, 4) + LEBytes(tm, 2) + LEBytes(th, 2) + [cs] + [cl]);
  }

  lemma EmptyHead()
    ensures ReadHead(Stream("", 0, false)) == (Stream("", 0, true), seq(10, i => 0))
  {
    EmptyFields();
    ZeroBytes(4);
    ZeroBytes(2);
    var z: seq<Byte> := LEBytes(0, 4) + LEBytes(0, 2) + LEBytes(0, 2) + [0] + [0];
    assert forall i :: 0 <= i < 10 ==> z[i] == 0;
    assert z == seq(10, i => 0);
  }

  lemma EmptyNode()
    ensures ReadNode(Stream("", 0, true)).1 == seq(6, i => 0)
  {
    var b4: seq<char> := "\0\0\0\0";
    NothingRead(Stream("", 0, true), b4, 4);
    ZeroBytes(2);
    var z: seq<Byte> := LEBytes(0, 2) + LEBytes(0, 2) + LEBytes(0, 2);
    assert z == seq(6, i => 0) by {
      assert forall i :: 0 <= i < 6 ==> z[i] == 0;
    }
  }

  /** With nothing to read, every conversion fails and leaves its 0: the
      empty string gives the nil UUID. */
  lemma EmptyText()
    ensures FromString("") == Nil
  {
    EmptyHead();
    EmptyNode();
    assert seq(10, i => 0) + seq(6, i => 0) == Nil;
  }

  // ---------------------------------------------------------------------------
  // Equality (uuid.cpp:185-196)

  /** `operator==`: compares byte by byte, stopping at the first difference. */
  method Equal(a: Uuid, b: Uuid) returns (r: bool)
    ensures r <==> a == b
  {
    var i := 0;
    while i < 16
      invariant 0 <= i <= 16
      invariant a[..i] == b[..i]
    {
      if a[i] != b[i] {
        return false;
      }
      assert a[..i + 1] == a[..i] + [a[i]] && b[..i + 1] == b[..i] + [b[i]];
      i := i + 1;
    }
    assert a == a[..16] && b == b[..16];
    return true;
  }

  /** `operator!=`: the negation of `==`. */
  method NotEqual(a: Uuid, b: Uuid) returns (r: bool)
    ensures r <==> a != b
  {
    var e := Equal(a, b);
    r := !e;
  }
}
