/** The incremental reader and the writer of one chunk of the chunked
    transfer coding (section 7.1 of RFC 9112), as the controller runs them
    over whatever bytes its stream holds (http-requests.cpp:388-474).

    The reader works on a `Chunk` record of flags and buffers that persists
    between calls. The size line is read in one batch, which is why a
    chunk can only be resumed at arbitrary points once its size is known;
    everything after the size token is a fold of a one-character `Step`. */
module HttpChunk {
  import opened Wrappers
  import opened Power
  import opened CLocale
  import opened Hex
  import opened BigNum

  /** `HttpChunk`: the size and data, and the reader's flags and buffers. */
  datatype Chunk = Chunk(
    size: BigNum,
    data: seq<char>,
    received: BigNum,
    header: seq<char>,
    sizeFound: bool,
    bodyStart: bool,
    complete: bool)

  /** `HttpChunk{}`: both numbers {0}, empty buffers, every flag down. */
  const Fresh: Chunk := Chunk([0], [], [0], [], false, false, false)

  /** Number of leading whitespace characters. */
  function SpaceRun(s: seq<char>): (n: nat)
    ensures n <= |s|
    ensures forall i :: 0 <= i < n ==> IsSpace(s[i])
    ensures n < |s| ==> !IsSpace(s[n])
  {
    if |s| == 0 || !IsSpace(s[0]) then 0 else 1 + SpaceRun(s[1..])
  }

  /** Number of leading non-whitespace characters. */
  function TokenRun(s: seq<char>): (n: nat)
    ensures n <= |s|
    ensures forall i :: 0 <= i < n ==> !IsSpace(s[i])
    ensures n < |s| ==> IsSpace(s[n])
  {
    if |s| == 0 || IsSpace(s[0]) then 0 else 1 + TokenRun(s[1..])
  }

  /** The size-line branch of one pass of the reader's loop, taken while
      neither the size nor the body start is known. It skips whitespace
      (keeping the last character read even when that is whitespace too),
      then collects non-whitespace characters into the header buffer. The
      whitespace character that ends the token is consumed, and the buffer
      is converted by the hex constructor, which may fail. With `normalise`
      the converted size has its leading zero limbs removed (the corrected
      reader). Returns the new record and the unread input. */
  function SizeLine(c: Chunk, input: seq<char>, normalise: bool): (r: Result<(Chunk, seq<char>)>)
    requires |input| > 0
    ensures r.Success? ==> |r.value.1| < |input| && input[|input| - |r.value.1|..] == r.value.1
    ensures r.Success? && !r.value.0.sizeFound ==> r.value.1 == []
    ensures r.Success? ==> r.value.0.data == c.data && r.value.0.received == c.received
                           && r.value.0.bodyStart == c.bodyStart && r.value.0.complete == c.complete
  {
    var lead := SpaceRun(input);
    var i := if lead < |input| then lead else |input| - 1;
    SizeToken(c, input[i], input[i + 1..], normalise)
  }

  /** The token scan of a size line, from its first character on. */
  function SizeToken(c: Chunk, first: char, after: seq<char>, normalise: bool): (r: Result<(Chunk, seq<char>)>)
    ensures r.Success? ==> |r.value.1| <= |after| && after[|after| - |r.value.1|..] == r.value.1
    ensures r.Success? && !r.value.0.sizeFound ==> r.value.1 == []
    ensures r.Success? ==> r.value.0.data == c.data && r.value.0.received == c.received
                           && r.value.0.bodyStart == c.bodyStart && r.value.0.complete == c.complete
  {
    var j := TokenRun(after);
    var header := c.header + [first] + after[..j];
    if j < |after| then SizedLine(c, header, after[j + 1..], normalise)
    else Success((c.(header := header), []))
  }

  /** The end of a size line: the collected token converted by the hex
      constructor, the buffer cleared, and the input after the token's
      terminator left unread. */
  function SizedLine(c: Chunk, header: seq<char>, rest: seq<char>, normalise: bool): (r: Result<(Chunk, seq<char>)>)
    ensures r.Failure? <==> FromHex(header).Failure?
    ensures r.Success? ==>
              r.value.1 == rest && r.value.0 == c.(size := r.value.0.size, header := [], sizeFound := true)
              && Value(r.value.0.size) == Value(FromHex(header).value)
              && (normalise ==> Normalised(r.value.0.size))
              && (!normalise ==> r.value.0.size == FromHex(header).value)
  {
    var size :- FromHex(header);
    var size' := if normalise then StripLeadingZeros(size) else size;
    Success((c.(size := size', header := [], sizeFound := true), rest))
  }

  /** One character once the size is known: seek the line feed that starts
      the body, then store data while fewer than `size` bytes have been
      received (the length-first `<` of the limb vectors), then seek the
      line feed that completes the chunk. */
  function Step(c: Chunk, ch: char): (r: Chunk)
    ensures r.size == c.size && r.header == c.header && r.sizeFound == c.sizeFound
    ensures |c.data| <= |r.data| <= |c.data| + 1 && r.data[..|c.data|] == c.data
    ensures c.bodyStart ==> r.bodyStart
  {
    if !c.bodyStart then
      if ch == '\n' then c.(bodyStart := true) else c
    else if Less(c.received, c.size) then
      c.(data := c.data + [ch], received := Increment(c.received))
    else if ch == '\n' then
      c.(complete := true)
    else c
  }

  /** The reader's loop after the size line: steps until the input runs out
      or the chunk is complete, leaving the rest of the input unread. */
  function Feed(c: Chunk, input: seq<char>): (r: (Chunk, seq<char>))
    ensures |r.1| <= |input|
    ensures |r.1| > 0 ==> r.0.complete
    ensures r.0.size == c.size && r.0.sizeFound == c.sizeFound && (c.bodyStart ==> r.0.bodyStart)
    decreases |input|
  {
    if |input| == 0 || c.complete then (c, input)
    else Feed(Step(c, input[0]), input[1..])
  }

  /** What `Feed` leaves unread is a suffix of its input. */
  lemma {:induction false} FeedRest(c: Chunk, input: seq<char>)
    ensures var r := Feed(c, input); input[|input| - |r.1|..] == r.1
    decreases |input|
  {
    if |input| > 0 && !c.complete {
      FeedRest(Step(c, input[0]), input[1..]);
      var r := Feed(c, input);
      assert input[1..][|input[1..]| - |r.1|..] == input[|input| - |r.1|..];
    }
  }

  /** `operator>>(istream&, HttpChunk&)` over the bytes available: the size
      line while the size is unknown, then `Feed`. Fails only when the hex
      constructor throws. */
  function ReadWith(c: Chunk, input: seq<char>, normalise: bool): (r: Result<(Chunk, seq<char>)>)
    ensures (c.sizeFound || c.bodyStart || c.complete) ==> r == Success(Feed(c, input))
    decreases |input|
  {
    if |input| == 0 || c.complete then Success((c, input))
    else if !c.bodyStart && !c.sizeFound then
      var (c1, rest) :- SizeLine(c, input, normalise);
      ReadWith(c1, rest, normalise)
    else Success(Feed(c, input))
  }

  /** The reader as written. */
  function Read(c: Chunk, input: seq<char>): (r: Result<(Chunk, seq<char>)>)
    ensures (c.sizeFound || c.bodyStart || c.complete) ==> r == Success(Feed(c, input))
  {
    ReadWith(c, input, false)
  }

  /** `operator<<(ostream&, HttpChunk&)`: the size in hex, CRLF, the data, CRLF. */
  function Write(c: Chunk): seq<char>
  {
    ToText(c.size) + "\r\n" + c.data + "\r\n"
  }

  // ---------------------------------------------------------------------------
  // Resumability

  /** Feeding `a` and then `b` is feeding `a + b`: unless `a` completed the
      chunk, in which case the rest of `a` and all of `b` stay unread. */
  lemma {:induction false} FeedConcat(c: Chunk, a: seq<char>, b: seq<char>)
    ensures Feed(c, a + b) == (var (c1, r1) := Feed(c, a);
                               if |r1| == 0 then Feed(c1, b) else (c1, r1 + b))
    decreases |a|
  {
    if |a| > 0 && !c.complete {
      assert (a + b)[0] == a[0] && (a + b)[1..] == a[1..] + b;
      FeedConcat(Step(c, a[0]), a[1..], b);
    } else if |a| == 0 {
      assert a + b == b;
    }
  }

  /** Once the size is known the reader resumes anywhere: reading a split
      input in two calls gives what one call on the whole input gives. */
  lemma ReadResumable(c: Chunk, a: seq<char>, b: seq<char>, normalise: bool)
    requires c.sizeFound || c.bodyStart
    ensures ReadWith(c, a + b, normalise) ==
            (var (c1, r1) := Feed(c, a);
             if |r1| == 0 then ReadWith(c1, b, normalise) else Success((c1, r1 + b)))
  {
    FeedConcat(c, a, b);
    var (c1, r1) := Feed(c, a);
    if |r1| == 0 {
      assert c1.sizeFound || c1.bodyStart;
      assert ReadWith(c1, b, normalise) == Success(Feed(c1, b));
    }
  }

  // ---------------------------------------------------------------------------
  // The counted data and its bound

  /** What the reader keeps true of its record: `received` counts the data,
      and no data arrives before the size. */
  predicate Counted(c: Chunk)
  {
    Normalised(c.received) && Value(c.received) == |c.data| && (!c.sizeFound ==> c.data == [])
  }

  /** The data never exceeds the size, whenever the size is normalised. */
  predicate Bounded(c: Chunk)
  {
    Normalised(c.size) ==> |c.data| <= Value(c.size)
  }

  lemma StepKeeps(c: Chunk, ch: char)
    requires c.sizeFound && Counted(c) && Bounded(c)
    ensures Counted(Step(c, ch)) && Bounded(Step(c, ch))
  {
    if c.bodyStart && Less(c.received, c.size) && Normalised(c.size) {
      CompareNumeric(c.received, c.size);
    }
  }

  lemma {:induction false} FeedKeeps(c: Chunk, input: seq<char>)
    requires c.sizeFound && Counted(c) && Bounded(c)
    ensures Counted(Feed(c, input).0) && Bounded(Feed(c, input).0)
    decreases |input|
  {
    if |input| > 0 && !c.complete {
      StepKeeps(c, input[0]);
      FeedKeeps(Step(c, input[0]), input[1..]);
    }
  }

  lemma {:induction false} ReadKeeps(c: Chunk, input: seq<char>, normalise: bool)
    requires Counted(c) && Bounded(c) && (!c.sizeFound ==> Normalised(c.size) && Value(c.size) == 0)
    requires c.bodyStart ==> c.sizeFound
    ensures ReadWith(c, input, normalise).Success? ==>
              Counted(ReadWith(c, input, normalise).value.0) && Bounded(ReadWith(c, input, normalise).value.0)
    ensures normalise && ReadWith(c, input, normalise).Success? && ReadWith(c, input, normalise).value.0.sizeFound
            && (c.sizeFound ==> Normalised(c.size)) ==>
              Normalised(ReadWith(c, input, normalise).value.0.size)
    decreases |input|
  {
    if |input| == 0 || c.complete {
    } else if !c.bodyStart && !c.sizeFound {
      var s := SizeLine(c, input, normalise);
      if s.Success? {
        var (c1, rest) := s.value;
        assert c1.data == [] && c1.received == c.received;
        if c1.sizeFound {
          FeedKeeps(c1, rest);
        } else {
          assert rest == [];
        }
      }
    } else {
      FeedKeeps(c, input);
    }
  }

  /** From a fresh record the reader as written stores at most `size` bytes
      whenever the size it read is normalised; the corrected reader
      normalises the size and so always stays within it. */
  lemma DataWithinSize(input: seq<char>, normalise: bool)
    ensures ReadWith(Fresh, input, normalise).Success? ==>
              var c := ReadWith(Fresh, input, normalise).value.0;
              Value(c.received) == |c.data| && (Normalised(c.size) ==> |c.data| <= Value(c.size))
    ensures normalise && ReadWith(Fresh, input, normalise).Success? ==>
              |ReadWith(Fresh, input, normalise).value.0.data| <= Value(ReadWith(Fresh, input, normalise).value.0.size)
  {
    ValueSingle(0);
    ReadKeeps(Fresh, input, normalise);
  }

  // ---------------------------------------------------------------------------
  // Completion consumes nothing past the line feed after the data

  /** Index of the first line feed, or |s| when there is none. */
  function FirstLineFeed(s: seq<char>): (k: nat)
    ensures k <= |s| && (k < |s| ==> s[k] == '\n')
    ensures forall i :: 0 <= i < k ==> s[i] != '\n'
  {
    if |s| == 0 || s[0] == '\n' then 0 else 1 + FirstLineFeed(s[1..])
  }

  /** After the last data byte, the reader stores nothing more and stops
      right after the first line feed, leaving everything behind it unread. */
  lemma {:induction false} FeedAfterData(c: Chunk, input: seq<char>)
    requires c.bodyStart && !Less(c.received, c.size) && !c.complete
    ensures var k := FirstLineFeed(input);
            Feed(c, input) == if k < |input| then (c.(complete := true), input[k + 1..]) else (c, [])
    decreases |input|
  {
    if |input| > 0 && input[0] != '\n' {
      FeedAfterData(c, input[1..]);
      var k := FirstLineFeed(input[1..]);
      if k < |input[1..]| {
        assert input[1..][k + 1..] == input[k + 2..];
      }
    }
  }

  // ---------------------------------------------------------------------------
  // Write then read

  lemma SameValue(a: BigNum, b: BigNum)
    requires Normalised(a) && Normalised(b) && Value(a) == Value(b)
    ensures a == b
  {
    CompareNumeric(a, b);
    CompareTrichotomy(a, b);
  }

  /** In the data phase the next `size - received` bytes are stored, whatever
      they are, and `received` reaches `size`. */
  lemma {:induction false} FeedData(c: Chunk, d: seq<char>, rest: seq<char>)
    requires c.bodyStart && !c.complete && Normalised(c.received) && Normalised(c.size)
    requires Value(c.received) + |d| == Value(c.size)
    ensures Feed(c, d + rest) == Feed(c.(data := c.data + d, received := c.size), rest)
    decreases |d|
  {
    if |d| == 0 {
      assert d + rest == rest && c.data + d == c.data;
      SameValue(c.received, c.size);
      assert c.(data := c.data + d, received := c.size) == c;
    } else {
      var c' := FeedHead(c, d, rest);
      FeedData(c', d[1..], rest);
      assert c'.data + d[1..] == c.data + d;
      assert c'.(data := c'.data + d[1..], received := c'.size) == c.(data := c.data + d, received := c.size);
    }
  }

  /** The first byte of the data phase, with what the rest of the phase
      needs. */
  lemma FeedHead(c: Chunk, d: seq<char>, rest: seq<char>) returns (c': Chunk)
    requires c.bodyStart && !c.complete && Normalised(c.received) && Normalised(c.size)
    requires |d| > 0 && Value(c.received) + |d| == Value(c.size)
    ensures c' == c.(data := c.data + [d[0]], received := Increment(c.received))
    ensures c'.bodyStart && !c'.complete && Normalised(c'.received) && Normalised(c'.size)
    ensures Value(c'.received) + |d[1..]| == Value(c'.size)
    ensures Feed(c, d + rest) == Feed(c', d[1..] + rest)
  {
    c' := c.(data := c.data + [d[0]], received := Increment(c.received));
    assert d + rest == [d[0]] + (d[1..] + rest);
    FeedOne(c, d[0], d[1..] + rest);
  }

  lemma FeedOne(c: Chunk, x: char, rest: seq<char>)
    requires c.bodyStart && !c.complete && Normalised(c.received) && Normalised(c.size)
    requires Value(c.received) < Value(c.size)
    ensures Feed(c, [x] + rest) == Feed(c.(data := c.data + [x], received := Increment(c.received)), rest)
  {
    CompareNumeric(c.received, c.size);
    assert ([x] + rest)[1..] == rest;
  }

  lemma TokenRunStops(t: seq<char>, w: char, z: seq<char>)
    requires forall i :: 0 <= i < |t| ==> !IsSpace(t[i])
    requires IsSpace(w)
    ensures TokenRun(t + [w] + z) == |t|
    decreases |t|
  {
    if |t| > 0 {
      assert (t + [w] + z)[1..] == t[1..] + [w] + z;
      TokenRunStops(t[1..], w, z);
    }
  }

  /** A size token of non-whitespace characters followed by CR is handed
      whole to the hex constructor (so the size line fails exactly when it
      throws), and everything after the CR is left unread. */
  lemma SizeLineToken(t: seq<char>, tail: seq<char>, normalise: bool)
    requires |t| > 0 && forall i :: 0 <= i < |t| ==> !IsSpace(t[i])
    ensures SizeLine(Fresh, t + "\r" + tail, normalise) == SizedLine(Fresh, t, tail, normalise)
  {
    var input := t + "\r" + tail;
    TokenLine(t, tail);
    var after, n := input[1..], |t| - 1;
    var h := Fresh.header + [input[0]] + after[..n];
    assert h == t && after[n + 1..] == tail;
    SizeLineSkip(Fresh, input, normalise);
    SizeTokenAt(Fresh, input[0], after, normalise, n);
    calc {
      SizeLine(Fresh, input, normalise);
      SizeToken(Fresh, input[0], after, normalise);
      SizedLine(Fresh, h, after[n + 1..], normalise);
    }
  }

  /** Without leading whitespace the token scan starts at the first character. */
  lemma SizeLineSkip(c: Chunk, input: seq<char>, normalise: bool)
    requires |input| > 0 && SpaceRun(input) == 0
    ensures SizeLine(c, input, normalise) == SizeToken(c, input[0], input[1..], normalise)
  {
  }

  /** A token the hex constructor accepts becomes the size of a fresh record. */
  lemma SizedFresh(t: seq<char>, tail: seq<char>, normalise: bool)
    ensures FromHex(t).Success? ==>
              SizedLine(Fresh, t, tail, normalise) ==
              Success((Fresh.(size := (if normalise then StripLeadingZeros(FromHex(t).value) else FromHex(t).value),
                              sizeFound := true), tail))
  {
  }

  /** The token scan when the token ends at n, before a terminator. */
  lemma SizeTokenAt(c: Chunk, first: char, after: seq<char>, normalise: bool, n: nat)
    requires TokenRun(after) == n < |after|
    ensures SizeToken(c, first, after, normalise) == SizedLine(c, c.header + [first] + after[..n], after[n + 1..], normalise)
  {
  }

  /** Where the size line's scan of a token followed by CR stops. */
  lemma TokenLine(t: seq<char>, tail: seq<char>)
    requires |t| > 0 && forall i :: 0 <= i < |t| ==> !IsSpace(t[i])
    ensures var input := t + "\r" + tail;
            SpaceRun(input) == 0 && TokenRun(input[1..]) == |t| - 1 < |input[1..]|
            && [input[0]] + input[1..][..|t| - 1] == t && input[1..][|t|..] == tail
  {
    var input := t + "\r" + tail;
    assert input[0] == t[0];
    assert SpaceRun(input) == 0;
    var after := input[1..];
    assert after == t[1..] + ['\r'] + tail;
    TokenRunStops(t[1..], '\r', tail);
    assert after[..|t| - 1] == t[1..];
    assert after[|t|..] == tail;
  }

  /** Writing a chunk whose size counts its data and reading the text back
      from a fresh record gives the same size and data, complete, with
      whatever follows left unread. */
  lemma WriteReadRoundTrip(c: Chunk, rest: seq<char>, normalise: bool)
    requires Normalised(c.size) && c.size[0] < Pow(16, 15) && Value(c.size) == |c.data|
    ensures ReadWith(Fresh, Write(c) + rest, normalise) ==
            Success((Chunk(c.size, c.data, c.size, [], true, true, true), rest))
  {
    var tail := "\n" + c.data + "\r\n" + rest;
    WrittenSizeLine(c, rest, normalise);
    ReadWrittenBody(c, rest);
  }

  /** The size line of a written chunk is read back as its size. */
  lemma WrittenSizeLine(c: Chunk, rest: seq<char>, normalise: bool)
    requires Normalised(c.size) && c.size[0] < Pow(16, 15)
    ensures ReadWith(Fresh, Write(c) + rest, normalise) ==
            ReadWith(Fresh.(size := c.size, sizeFound := true), "\n" + c.data + "\r\n" + rest, normalise)
  {
    var t := ToText(c.size);
    var tail := "\n" + c.data + "\r\n" + rest;
    WriteSplit(t, c.data, rest);
    HexRoundTrip(c.size);
    assert StripLeadingZeros(c.size) == c.size;
    SizeLineToken(t, tail, normalise);
    SizedFresh(t, tail, normalise);
  }

  /** After the size line, the data and its CRLF are read to completion. */
  lemma ReadWrittenBody(c: Chunk, rest: seq<char>)
    requires Normalised(c.size) && Value(c.size) == |c.data|
    ensures Feed(Fresh.(size := c.size, sizeFound := true), "\n" + c.data + "\r\n" + rest) ==
            (Chunk(c.size, c.data, c.size, [], true, true, true), rest)
  {
    var tail := "\n" + c.data + "\r\n" + rest;
    var c1 := Fresh.(size := c.size, sizeFound := true);
    var c2 := c1.(bodyStart := true);
    TailSplit(c.data, rest);
    assert Feed(c1, tail) == Feed(c2, c.data + ("\r\n" + rest));
    ValueSingle(0);
    FeedData(c2, c.data, "\r\n" + rest);
    assert c2.data + c.data == c.data;
    ReadWrittenEnd(c.size, c.data, rest);
  }

  lemma ReadWrittenEnd(size: BigNum, d: seq<char>, rest: seq<char>)
    ensures Feed(Chunk(size, d, size, [], true, true, false), "\r\n" + rest) ==
            (Chunk(size, d, size, [], true, true, true), rest)
  {
    var c3 := Chunk(size, d, size, [], true, true, false);
    assert !Less(size, size) by { CompareTrichotomy(size, size); }
    FeedAfterData(c3, "\r\n" + rest);
    assert FirstLineFeed("\r\n" + rest) == 1;
    assert ("\r\n" + rest)[2..] == rest;
  }

  lemma WriteSplit(t: seq<char>, d: seq<char>, rest: seq<char>)
    ensures t + "\r\n" + d + "\r\n" + rest == t + "\r" + ("\n" + d + "\r\n" + rest)
  {
  }

  lemma TailSplit(d: seq<char>, rest: seq<char>)
    ensures var tail := "\n" + d + "\r\n" + rest;
            tail[0] == '\n' && tail[1..] == d + ("\r\n" + rest)
  {
  }

  lemma SmallText()
    ensures ToText([22]) == "16" && ToText([0]) == "0"
  {
    assert MinHex(1) == "1";
    assert MinHex(22) == MinHex(1) + [LowerDigit(6)];
    assert PaddedLimbs([]) == [];
  }

  /** The 22-byte chunk: written as "16", CRLF, data, CRLF and read back;
      the last chunk "0\r\n\r\n" has empty data. */
  lemma ChunkExamples(d: seq<char>)
    requires |d| == 22
    ensures Write(Chunk([22], d, [0], [], false, false, false)) == "16\r\n" + d + "\r\n"
    ensures Read(Fresh, "16\r\n" + d + "\r\n") == Success((Chunk([22], d, [22], [], true, true, true), []))
    ensures Read(Fresh, "0\r\n\r\n") == Success((Chunk([0], [], [0], [], true, true, true), []))
  {
    SmallText();
    ValueSingle(22);
    ValueSingle(0);
    PowPositive(16, 15);
    var c := Chunk([22], d, [0], [], false, false, false);
    WriteReadRoundTrip(c, [], false);
    Lit22(d);
    assert Write(c) == "16" + "\r\n" + d + "\r\n";
    var z := Chunk([0], [], [0], [], false, false, false);
    WriteReadRoundTrip(z, [], false);
    Lit0();
    assert Write(z) == "0" + "\r\n" + [] + "\r\n";
  }

  lemma Lit22(d: seq<char>)
    ensures "16" + "\r\n" + d + "\r\n" + [] == "16\r\n" + d + "\r\n"
    ensures "16" + "\r\n" + d + "\r\n" == "16\r\n" + d + "\r\n"
  {
  }

  lemma Lit0()
    ensures "0" + "\r\n" + [] + "\r\n" + [] == "0\r\n\r\n"
    ensures "0" + "\r\n" + [] + "\r\n" == "0\r\n\r\n"
  {
  }

  lemma LitPieces(d1: seq<char>, d2: seq<char>)
    ensures "16\r\n" + d1 == "16" + "\r" + ("\n" + d1)
    ensures "16\r\n" + (d1 + d2) + "\r\n" == "16" + "\r" + ("\n" + d1 + (d2 + "\r\n"))
  {
  }

  /** Fewer bytes than the size still lack: all are stored and none is left. */
  lemma {:induction false} FeedShort(c: Chunk, d: seq<char>)
    requires c.bodyStart && !c.complete && Normalised(c.received) && Normalised(c.size)
    requires Value(c.received) + |d| < Value(c.size)
    ensures Feed(c, d).1 == [] && !Feed(c, d).0.complete
    decreases |d|
  {
    if |d| > 0 {
      var c' := c.(data := c.data + [d[0]], received := Increment(c.received));
      assert d == [d[0]] + d[1..];
      FeedOne(c, d[0], d[1..]);
      FeedShort(c', d[1..]);
    }
  }

  /** "16" holds no white space. */
  lemma SixteenToken()
    ensures forall i :: 0 <= i < |"16"| ==> !IsSpace("16"[i])
  {
    assert "16"[0] == '1' && "16"[1] == '6';
  }

  /** A chunk fed in two pieces, the first ending inside the data, reads as
      the whole chunk fed at once. */
  lemma ChunkInTwoPieces(d1: seq<char>, d2: seq<char>)
    requires |d1 + d2| == 22 && |d2| > 0
    ensures var x := Read(Fresh, "16\r\n" + d1);
            x.Success? && x.value.1 == [] &&
            Read(x.value.0, d2 + "\r\n") == Read(Fresh, "16\r\n" + (d1 + d2) + "\r\n")
  {
    SmallText();
    ValueSingle(22);
    ValueSingle(0);
    PowPositive(16, 15);
    HexRoundTrip([22]);
    var c1 := Fresh.(size := [22], sizeFound := true);
    var c2 := c1.(bodyStart := true);
    SixteenToken();
    SizeLineToken("16", "\n" + d1, false);
    SizedFresh("16", "\n" + d1, false);
    LitPieces(d1, d2);
    assert Read(Fresh, "16\r\n" + d1) == Success(Feed(c1, "\n" + d1));
    assert ("\n" + d1)[1..] == d1;
    assert Feed(c1, "\n" + d1) == Feed(c2, d1);
    FeedShort(c2, d1);
    var whole := "16\r\n" + (d1 + d2) + "\r\n";
    SizeLineToken("16", "\n" + d1 + (d2 + "\r\n"), false);
    SizedFresh("16", "\n" + d1 + (d2 + "\r\n"), false);
    FeedConcat(c1, "\n" + d1, d2 + "\r\n");
  }

  // ---------------------------------------------------------------------------
  // A size with leading zero limbs

  /** The value of a string of '0's. */
  lemma {:induction false} ZerosValue(z: seq<char>)
    requires forall i :: 0 <= i < |z| ==> z[i] == '0'
    ensures AllHex(z) && HexValue(z) == 0
    decreases |z|
  {
    if |z| > 0 {
      ZerosValue(z[..|z| - 1]);
    }
  }

  /** Seventeen hex digits "00000000000000001" make the two limbs {0, 1}. */
  lemma PaddedOne(z: seq<char>)
    requires |z| == 16 && forall i :: 0 <= i < |z| ==> z[i] == '0'
    ensures FromHex(z + "1") == Success([0, 1])
  {
    var t := z + "1";
    ZerosValue(z);
    assert AllHex(t) by {
      forall i | 0 <= i < |t| ensures IsHexDigit(t[i]) { if i < 16 { assert t[i] == z[i]; } }
    }
    assert t[..|t| - 1] == z;
    assert HexValue(t) == 1;
    var r := FromHex(t).value;
    assert |r| == 2 && Value(r) == 1;
    assert r[..1] == [r[0]];
    ValueSingle(r[0]);
    assert Value(r) == r[0] * BASE + r[1];
    assert r == [0, 1];
  }

  /** While `received` has one limb it is `<` any two-limb size, whatever
      that size's value: so every byte is stored. */
  lemma {:induction false} FeedOverruns(c: Chunk, d: seq<char>)
    requires c.bodyStart && !c.complete && |c.size| == 2 && Normalised(c.received) && |c.received| == 1
    requires Value(c.received) + |d| <= MAX
    ensures Feed(c, d) == (c.(data := c.data + d, received := [Value(c.received) + |d|]), [])
    decreases |d|
  {
    ValueSingle(c.received[0]);
    assert c.received == [c.received[0]];
    if |d| == 0 {
      assert c.data + d == c.data;
    } else {
      var inc := Increment(c.received);
      assert |inc| == 1;
      var c' := c.(data := c.data + [d[0]], received := inc);
      assert Step(c, d[0]) == c';
      assert d == [d[0]] + d[1..];
      assert Feed(c, d) == Feed(c', d[1..]);
      FeedOverruns(c', d[1..]);
      assert c'.data + d[1..] == c.data + d;
    }
  }

  /** The reader as written, given the size "00000000000000001" (one, with
      a zero leading limb), stores every byte that follows the size line,
      CR and LF included, and never completes. */
  lemma ReadOverrun(z: seq<char>, d: seq<char>)
    requires |z| == 16 && forall i :: 0 <= i < |z| ==> z[i] == '0'
    requires |d| <= MAX
    ensures var r := Read(Fresh, z + "1\r\n" + d);
            r.Success? && r.value.0.data == d && Value(r.value.0.size) == 1 && !r.value.0.complete
  {
    var c2 := PaddedSizeLine(z, d);
    ValueSingle(0);
    FeedOverruns(c2, d);
    assert Value([0, 1]) == 1 by { assert [0, 1][..1] == [0]; ValueSingle(0); }
  }

  /** The size line "00000000000000001\r\n" leaves the two-limb size [0, 1]
      and the body started. */
  lemma PaddedSizeLine(z: seq<char>, d: seq<char>) returns (c2: Chunk)
    requires |z| == 16 && forall i :: 0 <= i < |z| ==> z[i] == '0'
    ensures c2 == Fresh.(size := [0, 1], sizeFound := true, bodyStart := true)
    ensures Read(Fresh, z + "1\r\n" + d) == Success(Feed(c2, d))
  {
    var c1 := Fresh.(size := [0, 1], sizeFound := true);
    PaddedToken(z, "\n" + d);
    assert z + "1\r\n" + d == z + "1" + "\r" + ("\n" + d);
    assert ReadWith(Fresh, z + "1\r\n" + d, false) == ReadWith(c1, "\n" + d, false);
    assert ("\n" + d)[1..] == d;
    c2 := c1.(bodyStart := true);
    assert Feed(c1, "\n" + d) == Feed(c2, d);
  }

  lemma PaddedToken(z: seq<char>, tail: seq<char>)
    requires |z| == 16 && forall i :: 0 <= i < |z| ==> z[i] == '0'
    ensures SizeLine(Fresh, z + "1" + "\r" + tail, false) == Success((Fresh.(size := [0, 1], sizeFound := true), tail))
  {
    PaddedOne(z);
    var t := z + "1";
    assert forall i :: 0 <= i < |t| ==> !IsSpace(t[i]) by {
      forall i | 0 <= i < |t| ensures !IsSpace(t[i]) { if i < 16 { assert t[i] == z[i]; } }
    }
    SizeLineToken(t, tail, false);
    SizedFresh(t, tail, false);
  }
}
