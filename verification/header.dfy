/** The incremental reader of one HTTP/1.1 field line (section 5 of
    RFC 9112), as the controller runs it over whatever bytes its stream
    holds (http-requests.cpp:476-597). Every branch of the reader's loop
    ends exactly where the next character would take a different branch,
    so the reader is a fold of the one-character `Step` and can be resumed
    at any point. */
module HttpHeader {
  import opened CLocale

  /** `HttpHeaderField`, in declaration order. */
  datatype Field = ContentType | ContentLength | Accept | Host | TransferEncoding | EndOfHeaders | Unknown | Connect

  /** `HttpHeader`: the field and value, and the reader's flags and buffer. */
  datatype Header = Header(
    name: Field,
    value: seq<char>,
    buf: seq<char>,
    nameFound: bool,
    delimiterFound: bool,
    valueStarted: bool,
    valueEnded: bool,
    complete: bool,
    notLast: bool)

  /** `HttpHeader{}`: the first enumerator, empty strings, every flag down. */
  const Fresh: Header := Header(ContentType, [], [], false, false, false, false, false, false)

  /** The upper-case spelling the reader recognises for each named field. */
  function Spelling(f: Field): seq<char>
  {
    match f
    case ContentType => "CONTENT-TYPE"
    case ContentLength => "CONTENT-LENGTH"
    case Accept => "ACCEPT"
    case Host => "HOST"
    case TransferEncoding => "TRANSFER-ENCODING"
    case Connect => "CONNECT"
    case EndOfHeaders => ""
    case Unknown => ""
  }

  /** The fields a name can map to. */
  predicate Named(f: Field)
  {
    f != EndOfHeaders && f != Unknown
  }

  /** The field a name denotes once upper-cased: one of the six named
      fields when the upper-cased name is its spelling, otherwise Unknown. */
  function Classify(name: seq<char>): (f: Field)
    ensures f != EndOfHeaders
    ensures Named(f) ==> UpperCase(name) == Spelling(f)
    ensures f == Unknown <==> forall g :: Named(g) ==> UpperCase(name) != Spelling(g)
  {
    var u := UpperCase(name);
    if u == "CONTENT-TYPE" then ContentType
    else if u == "CONTENT-LENGTH" then ContentLength
    else if u == "ACCEPT" then Accept
    else if u == "HOST" then Host
    else if u == "TRANSFER-ENCODING" then TransferEncoding
    else if u == "CONNECT" then Connect
    else Unknown
  }

  /** Characters kept inside a value once it has started: anything that is
      not whitespace, and spaces and tabs. */
  predicate ValueChar(c: char)
  {
    !IsSpace(c) || c == ' ' || c == '\t'
  }

  /** One character of an incomplete field line. Only a line feed read
      before a name starts, or after the name, completes the line; no flag
      is ever lowered, and the value grows by at most this character. */
  function Step(h: Header, c: char): (r: Header)
    ensures r.complete <==> h.complete || (c == '\n' && (h.nameFound || !h.notLast))
    ensures (h.nameFound ==> r.nameFound) && (h.delimiterFound ==> r.delimiterFound)
    ensures (h.valueStarted ==> r.valueStarted) && (h.valueEnded ==> r.valueEnded)
    ensures r.value == h.value || r.value == h.value + [c]
  {
    if !h.nameFound then
      if !h.notLast then
        if c == '\n' then h.(nameFound := true, name := EndOfHeaders, complete := true)
        else if !IsSpace(c) then h.(notLast := true, buf := h.buf + [c])
        else h
      else if !(IsSpace(c) || c == ':') then h.(buf := h.buf + [c])
      else
        h.(delimiterFound := if c == ':' then true else h.delimiterFound,
           nameFound := true, name := Classify(h.buf), buf := [])
    else if !h.delimiterFound && c == ':' then h.(delimiterFound := true)
    else if c == '\n' then h.(complete := true)
    else if !IsSpace(c) && !h.valueStarted then h.(valueStarted := true, value := h.value + [c])
    else if h.valueStarted && !h.valueEnded then
      if ValueChar(c) then h.(value := h.value + [c]) else h.(valueEnded := true)
    else h
  }

  /** `operator>>(istream&, HttpHeader&)` over the bytes available: steps
      until the input runs out or the line is complete, leaving the rest of
      the input unread. */
  function Read(h: Header, input: seq<char>): (r: (Header, seq<char>))
    ensures |r.1| <= |input| && input[|input| - |r.1|..] == r.1
    ensures |r.1| > 0 ==> r.0.complete
    ensures h.complete ==> r == (h, input)
    decreases |input|
  {
    if |input| == 0 || h.complete then (h, input)
    else
      var r := Read(Step(h, input[0]), input[1..]);
      assert input[1..][|input[1..]| - |r.1|..] == input[|input| - |r.1|..];
      r
  }

  // ---------------------------------------------------------------------------
  // Resumability

  /** Reading `a` and then `b` is reading `a + b`, unless `a` completed the
      line, in which case the rest of `a` and all of `b` stay unread. */
  lemma {:induction false} ReadConcat(h: Header, a: seq<char>, b: seq<char>)
    ensures Read(h, a + b) == (var (h1, r1) := Read(h, a);
                               if |r1| == 0 then Read(h1, b) else (h1, r1 + b))
    decreases |a|
  {
    if |a| > 0 && !h.complete {
      assert (a + b)[0] == a[0] && (a + b)[1..] == a[1..] + b;
      ReadConcat(Step(h, a[0]), a[1..], b);
    } else if |a| == 0 {
      assert a + b == b;
    }
  }

  // ---------------------------------------------------------------------------
  // Whole lines

  predicate AllSpaceNoLF(s: seq<char>)
  {
    forall i :: 0 <= i < |s| ==> IsSpace(s[i]) && s[i] != '\n'
  }

  predicate NameChars(s: seq<char>)
  {
    forall i :: 0 <= i < |s| ==> !IsSpace(s[i]) && s[i] != ':'
  }

  /** A value as the reader keeps it: empty, or starting with a
      non-whitespace character and holding only value characters. */
  predicate WellFormedValue(v: seq<char>)
  {
    (|v| > 0 ==> !IsSpace(v[0])) && forall i :: 0 <= i < |v| ==> ValueChar(v[i])
  }

  /** Whitespace other than a line feed changes nothing before a name or a value starts. */
  lemma {:induction false} SkipSpaces(h: Header, ws: seq<char>, rest: seq<char>)
    requires AllSpaceNoLF(ws) && !h.complete
    requires (!h.nameFound && !h.notLast) || (h.nameFound && !h.valueStarted)
    ensures Read(h, ws + rest) == Read(h, rest)
    decreases |ws|
  {
    if |ws| > 0 {
      assert (ws + rest)[0] == ws[0] && (ws + rest)[1..] == ws[1..] + rest;
      assert Step(h, ws[0]) == h;
      assert Read(h, ws + rest) == Read(h, ws[1..] + rest);
      assert AllSpaceNoLF(ws[1..]) by {
        forall i | 0 <= i < |ws[1..]| ensures IsSpace(ws[1..][i]) && ws[1..][i] != '\n' {
          assert ws[1..][i] == ws[i + 1];
        }
      }
      SkipSpaces(h, ws[1..], rest);
    } else {
      assert ws + rest == rest;
    }
  }

  /** Name characters after the first are collected into the buffer. */
  lemma {:induction false} CollectName(h: Header, nm: seq<char>, rest: seq<char>)
    requires NameChars(nm) && !h.complete && !h.nameFound && h.notLast
    ensures Read(h, nm + rest) == Read(h.(buf := h.buf + nm), rest)
    decreases |nm|
  {
    if |nm| == 0 {
      assert nm + rest == rest && h.buf + nm == h.buf;
    } else {
      assert (nm + rest)[0] == nm[0] && (nm + rest)[1..] == nm[1..] + rest;
      CollectName(h.(buf := h.buf + [nm[0]]), nm[1..], rest);
      assert h.buf + [nm[0]] + nm[1..] == h.buf + nm;
    }
  }

  /** Value characters after the first are kept. */
  lemma {:induction false} CollectValue(h: Header, v: seq<char>, rest: seq<char>)
    requires (forall i :: 0 <= i < |v| ==> ValueChar(v[i]) && v[i] != '\n')
    requires !h.complete && h.nameFound && h.delimiterFound && h.valueStarted && !h.valueEnded
    ensures Read(h, v + rest) == Read(h.(value := h.value + v), rest)
    decreases |v|
  {
    if |v| == 0 {
      assert v + rest == rest && h.value + v == h.value;
    } else {
      assert (v + rest)[0] == v[0] && (v + rest)[1..] == v[1..] + rest;
      CollectValue(h.(value := h.value + [v[0]]), v[1..], rest);
      assert h.value + [v[0]] + v[1..] == h.value + v;
    }
  }

  /** A line of whitespace only is the end of the header section, with an
      empty value. */
  lemma LastHeader(ws: seq<char>, rest: seq<char>)
    requires AllSpaceNoLF(ws)
    ensures Read(Fresh, ws + "\n" + rest) ==
            (Fresh.(name := EndOfHeaders, nameFound := true, complete := true), rest)
  {
    assert ws + "\n" + rest == ws + ("\n" + rest);
    SkipSpaces(Fresh, ws, "\n" + rest);
    assert ("\n" + rest)[0] == '\n' && ("\n" + rest)[1..] == rest;
  }

  /** The record once the name and the ':' are behind. */
  function AfterDelimiter(nm: seq<char>): Header
  {
    Fresh.(name := Classify(nm), nameFound := true, delimiterFound := true, notLast := true)
  }

  lemma Reassociate(a: seq<char>, b: seq<char>, c: seq<char>, d: seq<char>)
    ensures a + b + c + d == a + (b + (c + d))
  {
  }

  /** Leading whitespace and a name leave the name collected in the buffer. */
  lemma NameStart(ws1: seq<char>, nm: seq<char>, x2: seq<char>)
    requires AllSpaceNoLF(ws1) && NameChars(nm) && |nm| > 0
    ensures Read(Fresh, ws1 + nm + x2) == Read(Fresh.(notLast := true, buf := nm), x2)
  {
    assert ws1 + nm + x2 == ws1 + (nm + x2);
    SkipSpaces(Fresh, ws1, nm + x2);
    var h1 := Fresh.(notLast := true, buf := [nm[0]]);
    assert (nm + x2)[0] == nm[0] && (nm + x2)[1..] == nm[1..] + x2;
    assert Fresh.buf + [nm[0]] == [nm[0]];
    assert Step(Fresh, nm[0]) == h1;
    assert Read(Fresh, nm + x2) == Read(h1, nm[1..] + x2);
    CollectName(h1, nm[1..], x2);
    assert h1.(buf := h1.buf + nm[1..]) == Fresh.(notLast := true, buf := nm);
  }

  /** After the name, optional whitespace and ':' classify it and find the
      delimiter. */
  lemma Delimiter(nm: seq<char>, ws2: seq<char>, tail: seq<char>)
    requires AllSpaceNoLF(ws2) && NameChars(nm) && |nm| > 0
    ensures Read(Fresh.(notLast := true, buf := nm), ws2 + (":" + tail)) == Read(AfterDelimiter(nm), tail)
  {
    var h2 := Fresh.(notLast := true, buf := nm);
    var x2 := ws2 + (":" + tail);
    var h4 := AfterDelimiter(nm);
    if |ws2| == 0 {
      assert x2 == ":" + tail && x2[1..] == tail;
      assert Step(h2, ':') == h4;
    } else {
      var h3 := h4.(delimiterFound := false);
      assert Step(h2, ws2[0]) == h3;
      assert x2[0] == ws2[0] && x2[1..] == ws2[1..] + (":" + tail);
      SkipSpaces(h3, ws2[1..], ":" + tail);
      assert (":" + tail)[1..] == tail;
      assert Step(h3, ':') == h4;
    }
  }

  /** Leading whitespace, a name, optional whitespace and ':' leave the
      classified name with the delimiter found. */
  lemma NamePart(ws1: seq<char>, nm: seq<char>, ws2: seq<char>, tail: seq<char>)
    requires AllSpaceNoLF(ws1) && AllSpaceNoLF(ws2) && NameChars(nm) && |nm| > 0
    ensures Read(Fresh, ws1 + nm + ws2 + (":" + tail)) == Read(AfterDelimiter(nm), tail)
  {
    var x2 := ws2 + (":" + tail);
    assert ws1 + nm + ws2 + (":" + tail) == ws1 + nm + x2;
    NameStart(ws1, nm, x2);
    Delimiter(nm, ws2, tail);
  }

  /** CR ends a started value and LF completes the line. */
  lemma LineEnd(h: Header, rest: seq<char>)
    requires h.nameFound && h.delimiterFound && !h.complete && !h.valueEnded
    ensures Read(h, "\r\n" + rest) == (h.(valueEnded := h.valueStarted, complete := true), rest)
  {
    var end := "\r\n" + rest;
    assert end[0] == '\r' && end[1..] == "\n" + rest;
    assert ("\n" + rest)[0] == '\n' && ("\n" + rest)[1..] == rest;
    var h' := h.(valueEnded := h.valueStarted);
    assert Step(h, '\r') == h';
    assert Read(h, end) == Read(h', "\n" + rest);
  }

  /** The first value character starts the value. */
  lemma ValueStart(h: Header, v: seq<char>, end: seq<char>)
    requires h.nameFound && h.delimiterFound && !h.complete && !h.valueStarted && !h.valueEnded
    requires WellFormedValue(v) && |v| > 0
    ensures Read(h, v + end) == Read(h.(valueStarted := true, value := h.value + v), end)
  {
    var h5 := h.(valueStarted := true, value := h.value + [v[0]]);
    assert (v + end)[0] == v[0] && (v + end)[1..] == v[1..] + end;
    assert Step(h, v[0]) == h5;
    assert Read(h, v + end) == Read(h5, v[1..] + end);
    assert forall i :: 0 <= i < |v[1..]| ==> ValueChar(v[1..][i]) && v[1..][i] != '\n' by {
      forall i | 0 <= i < |v[1..]| ensures ValueChar(v[1..][i]) && v[1..][i] != '\n' {
        assert v[1..][i] == v[i + 1];
      }
    }
    CollectValue(h5, v[1..], end);
    assert h5.value + v[1..] == h.value + v;
  }

  /** Whitespace, a value and CRLF complete the line with that value. */
  lemma ValuePart(nm: seq<char>, ws3: seq<char>, v: seq<char>, rest: seq<char>)
    requires AllSpaceNoLF(ws3) && WellFormedValue(v)
    ensures Read(AfterDelimiter(nm), ws3 + v + "\r\n" + rest) ==
            (AfterDelimiter(nm).(value := v, valueStarted := |v| > 0, valueEnded := |v| > 0, complete := true), rest)
  {
    var h4 := AfterDelimiter(nm);
    var end := "\r\n" + rest;
    Reassociate(ws3, v, "\r\n", rest);
    SkipSpaces(h4, ws3, v + end);
    if |v| == 0 {
      assert v + end == end;
      LineEnd(h4, rest);
    } else {
      ValueStart(h4, v, end);
      assert h4.value + v == v;
      LineEnd(h4.(valueStarted := true, value := v), rest);
    }
  }

  /** A field line: leading whitespace, a name, optional whitespace, ':',
      whitespace, a value and CRLF, gives the upper-cased name's field and
      exactly that value (inner spaces and tabs kept), leaving the rest of
      the input unread. */
  lemma FieldLine(ws1: seq<char>, nm: seq<char>, ws2: seq<char>, ws3: seq<char>, v: seq<char>, rest: seq<char>)
    requires AllSpaceNoLF(ws1) && AllSpaceNoLF(ws2) && AllSpaceNoLF(ws3)
    requires NameChars(nm) && |nm| > 0 && WellFormedValue(v)
    ensures var (h, r) := Read(Fresh, ws1 + nm + ws2 + ":" + ws3 + v + "\r\n" + rest);
            h.name == Classify(nm) && h.value == v && h.complete && r == rest
  {
    var tail := ws3 + v + "\r\n" + rest;
    assert ws1 + nm + ws2 + ":" + ws3 + v + "\r\n" + rest == ws1 + nm + ws2 + (":" + tail);
    NamePart(ws1, nm, ws2, tail);
    ValuePart(nm, ws3, v, rest);
  }

  /** Only a line feed completes a line: input without one is read to the
      end and leaves the line open. */
  lemma {:induction false} NoLineFeed(h: Header, input: seq<char>)
    requires !h.complete && forall i :: 0 <= i < |input| ==> input[i] != '\n'
    ensures Read(h, input).1 == [] && !Read(h, input).0.complete
    decreases |input|
  {
    if |input| > 0 {
      assert forall i :: 0 <= i < |input[1..]| ==> input[1..][i] != '\n' by {
        forall i | 0 <= i < |input[1..]| ensures input[1..][i] != '\n' { assert input[1..][i] == input[i + 1]; }
      }
      NoLineFeed(Step(h, input[0]), input[1..]);
    }
  }
}
