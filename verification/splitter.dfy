/** Splitting the data of one request chunk into the JSON objects it carries
    (controller-app.cpp:181-218). A chunk holds an array of objects, one
    object, or objects separated by commas; the scan counts braces to find
    the top-level objects. Braces inside JSON strings are counted like any
    other, as in the source. */
module ObjectSplitter {
  import opened Wrappers
  import Json

  /** `std::size_t` wraps modulo 2^64. */
  const SizeModulus: nat := 0x1_0000_0000_0000_0000

  /** The inner loop's state: the position (`next_comma`), the open-brace
      count and the last top-level opening and closing brace positions. */
  datatype Scan = Scan(pos: nat, count: nat, open: nat, close: nat)

  /** The inner `for` loop: runs to the end of the data or stops at a comma
      seen while no brace is open. */
  function ScanFrom(data: string, s: Scan): (r: Scan)
    requires s.pos <= |data| && s.open <= |data| && s.count < SizeModulus
    ensures s.pos <= r.pos <= |data| && r.open <= |data|
    ensures r.pos < |data| ==> data[r.pos] == ',' && r.count == 0
    decreases |data| - s.pos
  {
    if s.pos == |data| then s
    else
      var t := Step(data, s);
      if t.pos == s.pos then t else ScanFrom(data, t)
  }

  /** One character of the loop: '}' decrements the count first and records
      the closing position when it reaches zero; '{' records the opening
      position when the count was zero and increments it; a comma with the
      count at zero stops the loop where it is. */
  function Step(data: string, s: Scan): (t: Scan)
    requires s.pos < |data| && s.open <= |data| && s.count < SizeModulus
    ensures t.pos == s.pos + 1 || (t.pos == s.pos && data[s.pos] == ',' && t.count == 0)
    ensures t.open <= |data| && t.count < SizeModulus
  {
    var c := data[s.pos];
    var count := if c == '}' then Dec(s.count) else s.count;
    var close := if c == '}' && count == 0 then s.pos else s.close;
    if c == '{' then Scan(s.pos + 1, Inc(count), if count == 0 then s.pos else s.open, close)
    else if count == 0 && c == ',' then Scan(s.pos, count, s.open, close)
    else Scan(s.pos + 1, count, s.open, close)
  }

  /** `--count` on a `size_t`: zero wraps to the largest value. */
  function Dec(n: nat): (r: nat)
    requires n < SizeModulus
    ensures r < SizeModulus
  {
    if n == 0 then SizeModulus - 1 else n - 1
  }

  /** `++count` on a `size_t`: the largest value wraps to zero. */
  function Inc(n: nat): (r: nat)
    requires n < SizeModulus
    ensures r < SizeModulus
  {
    if n == SizeModulus - 1 then 0 else n + 1
  }

  /** One pass of the outer loop from `from`: counters and positions reset. */
  function Segment(data: string, from: nat): (r: Scan)
    requires from <= |data|
    ensures from <= r.pos <= |data| && r.open <= |data|
  {
    ScanFrom(data, Scan(from, 0, 0, 0))
  }

  /** `substr(open, close - open + 1)`, the length computed in `size_t` and
      clipped at the end of the data. */
  function Slice(data: string, s: Scan): (t: string)
    requires s.open <= |data|
  {
    var len := (s.close + SizeModulus - s.open + 1) % SizeModulus;
    var end := if s.open + len <= |data| then s.open + len else |data|;
    data[s.open..end]
  }

  /** A parsed slice must be an object: the parse check and `as_object`
      throw otherwise. */
  predicate IsObject(v: Option<Json.Value>)
  {
    v.Some? && v.value.Object?
  }

  // ---------------------------------------------------------------------------
  // The loop as written

  /** A pass started at a top-level comma stops there at once, and its slice
      is the first character of the data. */
  lemma Restart(data: string, q: nat)
    requires q < |data| && data[q] == ','
    ensures Segment(data, q) == Scan(q, 0, 0, 0)
    ensures Slice(data, Segment(data, q)) == data[..1]
  {
  }

  /** The outer loop as written: after a pass that stopped at a comma,
      `next_comma` is not advanced, so the next pass restarts at that comma
      and parses the one-character slice, which is never an object. The
      first comma between objects therefore always ends in a throw. */
  method SplitAsWritten(data: string, parse: string -> Option<Json.Value>)
    returns (r: Result<seq<seq<(string, Json.Value)>>>)
    requires forall t: string :: |t| <= 1 ==> !IsObject(parse(t))
    ensures |data| == 0 ==> r == Success([])
    ensures |data| > 0 && Segment(data, 0).pos < |data| ==> r.Failure?
    ensures |data| > 0 && Segment(data, 0).pos == |data| ==>
              var v := parse(Slice(data, Segment(data, 0)));
              (r.Success? <==> IsObject(v)) && (r.Success? ==> r.value == [v.value.members])
  {
    var pos := 0;
    var out := [];
    ghost var round := 0;
    while pos < |data|
      invariant pos <= |data| && round <= 1
      invariant round == 0 ==> pos == 0 && out == []
      invariant round == 1 ==> pos == Segment(data, 0).pos
      invariant round == 1 ==> |data| > 0 && IsObject(parse(Slice(data, Segment(data, 0))))
      invariant round == 1 ==> out == [parse(Slice(data, Segment(data, 0))).value.members]
      decreases 1 - round
    {
      var s := ScanFrom(data, Scan(pos, 0, 0, 0));
      var v := parse(Slice(data, s));
      if !IsObject(v) {
        return Failure("Json Parsing failed.");
      }
      if round == 1 {
        Restart(data, pos);
        assert false;
      }
      out := out + [v.value.members];
      pos, round := s.pos, 1;
    }
    return Success(out);
  }

  // ---------------------------------------------------------------------------
  // The loop corrected: continue after the comma

  /** The slices of the passes from `from` on, each pass after a comma
      starting just past it. */
  function Split(data: string, from: nat): (r: seq<string>)
    requires from <= |data|
    ensures from == |data| ==> r == []
    decreases |data| - from
  {
    if from == |data| then []
    else
      var s := Segment(data, from);
      [Slice(data, s)] + (if s.pos < |data| then Split(data, s.pos + 1) else [])
  }

  /** Every slice of the corrected loop (`Split(data, 0)`) parsed, each of
      which must be an object. */
  function ParseAll(ts: seq<string>, parse: string -> Option<Json.Value>): (r: Result<seq<seq<(string, Json.Value)>>>)
    ensures r.Success? <==> forall i :: 0 <= i < |ts| ==> IsObject(parse(ts[i]))
    ensures r.Success? ==> |r.value| == |ts| && forall i :: 0 <= i < |ts| ==> parse(ts[i]) == Some(Json.Object(r.value[i]))
    decreases |ts|
  {
    if |ts| == 0 then Success([])
    else
      var v := parse(ts[0]);
      if !IsObject(v) then Failure("Json Parsing failed.")
      else
        var rest :- ParseAll(ts[1..], parse);
        assert forall i :: 1 <= i < |ts| ==> ts[i] == ts[1..][i - 1];
        Success([v.value.members] + rest)
  }

  // ---------------------------------------------------------------------------
  // What the scan finds

  function Delta(c: char): int
  {
    if c == '{' then 1 else if c == '}' then -1 else 0
  }

  /** Opening minus closing braces; never more than the length. */
  function Depth(s: string): (d: int)
    ensures d <= |s|
  {
    if |s| == 0 then 0 else Depth(s[..|s| - 1]) + Delta(s[|s| - 1])
  }

  /** A top-level object: it opens with '{', every proper prefix leaves a
      brace open, and the whole closes them all. */
  predicate Balanced(o: string)
  {
    |o| >= 2 && o[0] == '{' && Depth(o) == 0 && forall k :: 1 <= k < |o| ==> Open(o, k)
  }

  /** The first `k` characters leave a brace open. */
  predicate Open(o: string, k: nat)
    requires k <= |o|
  {
    Depth(o[..k]) > 0
  }

  lemma DepthStep(o: string, k: nat)
    requires k < |o|
    ensures Depth(o[..k + 1]) == Depth(o[..k]) + Delta(o[k])
  {
    assert o[..k + 1][..k] == o[..k];
  }

  /** One step of the scan while a brace is open: it cannot stop, and only
      the brace that closes the last open one moves the closing position. */
  lemma ScanOpen(data: string, pos: nat, d: nat, open: nat, close: nat)
    requires pos < |data| && open <= |data| && 0 < d < SizeModulus - 1
    ensures ScanFrom(data, Scan(pos, d, open, close))
         == ScanFrom(data, Scan(pos + 1, d + Delta(data[pos]), open, if data[pos] == '}' && d == 1 then pos else close))
  {
    if data[pos] == '{' {
      assert Delta(data[pos]) == 1;
    } else if data[pos] == '}' {
      assert Delta(data[pos]) == -1;
    } else {
      assert Delta(data[pos]) == 0;
    }
  }

  /** Inside an object the scan neither stops nor moves the opening brace,
      and it records the object's last brace as the closing one. */
  lemma {:induction false} ScanInside(data: string, p: nat, o: string, k: nat, c0: nat)
    requires Balanced(o) && p + |o| <= |data| < SizeModulus && data[p..p + |o|] == o
    requires 1 <= k < |o| && Open(o, k)
    ensures ScanFrom(data, Scan(p + k, Depth(o[..k]), p, c0)) == ScanFrom(data, Scan(p + |o|, 0, p, p + |o| - 1))
    decreases |o| - k
  {
    var d := Depth(o[..k]);
    assert data[p + k] == o[k] by { assert data[p..p + |o|][k] == data[p + k]; }
    DepthStep(o, k);
    assert Open(o, k);
    assert 0 < d < SizeModulus - 1;
    ScanOpen(data, p + k, d, p, c0);
    if k + 1 < |o| {
      assert Open(o, k + 1);
      ScanInside(data, p, o, k + 1, c0);
    } else {
      assert o[..k + 1] == o;
    }
  }

  /** A top-level '{' is recorded as the opening brace and opens one. */
  lemma ScanBrace(data: string, p: nat, open: nat, close: nat)
    requires p < |data| && open <= |data| && data[p] == '{'
    ensures ScanFrom(data, Scan(p, 0, open, close)) == ScanFrom(data, Scan(p + 1, 1, p, close))
  {
  }

  /** The scan passes over a whole object, ending just after it with no brace
      open, the object's first and last positions recorded. */
  lemma ScanObject(data: string, p: nat, o: string, open: nat, close: nat)
    requires Balanced(o) && p + |o| <= |data| < SizeModulus && data[p..p + |o|] == o
    requires open <= |data|
    ensures ScanFrom(data, Scan(p, 0, open, close)) == ScanFrom(data, Scan(p + |o|, 0, p, p + |o| - 1))
  {
    assert data[p] == '{' by { assert data[p..p + |o|][0] == data[p]; }
    ScanBrace(data, p, open, close);
    assert Depth(o[..1]) == 1 by {
      DepthStep(o, 0);
      assert o[..0] == [];
    }
    ScanInside(data, p, o, 1, close);
  }

  /** A character that is no brace and no comma is passed over at the top
      level. */
  lemma ScanSkip(data: string, p: nat, open: nat, close: nat)
    requires p < |data| && open <= |data| && data[p] != '{' && data[p] != '}' && data[p] != ','
    ensures ScanFrom(data, Scan(p, 0, open, close)) == ScanFrom(data, Scan(p + 1, 0, open, close))
  {
  }

  lemma ScanComma(data: string, p: nat, open: nat, close: nat)
    requires p < |data| && open <= |data| && data[p] == ','
    ensures ScanFrom(data, Scan(p, 0, open, close)) == Scan(p, 0, open, close)
  {
  }

  /** The slice of a pass that found the object at `p` is the object. */
  lemma SliceObject(data: string, p: nat, o: string, s: Scan)
    requires |o| >= 1 && p + |o| <= |data| < SizeModulus && data[p..p + |o|] == o
    requires s.open == p && s.close == p + |o| - 1
    ensures Slice(data, s) == o
  {
    assert (s.close + SizeModulus - s.open + 1) % SizeModulus == |o|;
  }

  /** Every object of the list is a top-level object. */
  predicate AllBalanced(os: seq<string>)
    decreases |os|
  {
    |os| == 0 || (Balanced(os[0]) && AllBalanced(os[1..]))
  }

  /** Objects separated by commas, as in the body of an array. */
  function Listed(os: seq<string>): string
    requires |os| > 0
    decreases |os|
  {
    if |os| == 1 then os[0] else os[0] + "," + Listed(os[1..])
  }

  /** An object followed by a top-level comma is one slice, and the corrected
      loop goes on after the comma. */
  lemma SplitComma(data: string, from: nat, o: string)
    requires Balanced(o) && from + |o| < |data| < SizeModulus
    requires data[from..from + |o|] == o && data[from + |o|] == ','
    ensures Split(data, from) == [o] + Split(data, from + |o| + 1)
  {
    SegmentComma(data, from, o);
    SplitStep(data, from, |o|, o);
  }

  /** One pass of the corrected loop that stops at a comma `n` characters
      on, with slice `o`. */
  lemma SplitStep(data: string, from: nat, n: nat, o: string)
    requires from + n < |data|
    requires Segment(data, from).pos == from + n && Slice(data, Segment(data, from)) == o
    ensures Split(data, from) == [o] + Split(data, from + n + 1)
  {
  }

  /** The pass over an object followed by a top-level comma stops at the
      comma, and its slice is the object. */
  lemma SegmentComma(data: string, from: nat, o: string)
    requires Balanced(o) && from + |o| < |data| < SizeModulus
    requires data[from..from + |o|] == o && data[from + |o|] == ','
    ensures Segment(data, from) == Scan(from + |o|, 0, from, from + |o| - 1)
    ensures Slice(data, Segment(data, from)) == o
  {
    var n := from + |o|;
    ScanObject(data, from, o, 0, 0);
    ScanComma(data, n, from, n - 1);
    SliceObject(data, from, o, Segment(data, from));
  }

  /** An object followed by the closing ']' of the data is the last slice. */
  lemma SplitLast(data: string, from: nat, o: string)
    requires Balanced(o) && from + |o| + 1 == |data| < SizeModulus
    requires data[from..from + |o|] == o && data[from + |o|] == ']'
    ensures Split(data, from) == [o]
  {
    var n := from + |o|;
    ScanObject(data, from, o, 0, 0);
    ScanSkip(data, n, from, n - 1);
    SliceObject(data, from, o, Segment(data, from));
  }

  /** The corrected loop yields every object of a comma-separated list that
      closes the data with a ']'. */
  lemma {:induction false} SplitListed(data: string, from: nat, os: seq<string>)
    requires |os| > 0 && AllBalanced(os)
    requires |data| < SizeModulus && from <= |data| && data[from..] == Listed(os) + "]"
    ensures Split(data, from) == os
  {
    ListedAt(data, from, os);
    SplitAt(data, from, os);
  }

  /** The objects `os` lie in `data` from `from` on, each followed by a comma
      and the last by the closing ']' that ends the data. */
  predicate ListAt(data: string, from: nat, os: seq<string>)
    decreases |os|
  {
    |os| > 0 && from + |os[0]| < |data|
    && data[from..from + |os[0]|] == os[0]
    && if |os| == 1 then data[from + |os[0]|] == ']' && from + |os[0]| + 1 == |data|
       else data[from + |os[0]|] == ',' && ListAt(data, from + |os[0]| + 1, os[1..])
  }

  lemma {:induction false} ListedAt(data: string, from: nat, os: seq<string>)
    requires |os| > 0
    requires from <= |data| && data[from..] == Listed(os) + "]"
    ensures ListAt(data, from, os)
    decreases |os|
  {
    var o := os[0];
    var n := from + |o|;
    if |os| == 1 {
      assert data[from..] == o + "]";
      SuffixParts(data, from, o, "]");
      assert data[n..][0] == data[n];
    } else {
      var rest := Listed(os[1..]) + "]";
      ListedUnfold(os);
      SuffixParts(data, from, o, "," + rest);
      SuffixParts(data, n, ",", rest);
      assert data[n..][0] == data[n];
      ListedAt(data, n + 1, os[1..]);
    }
  }

  lemma ListedUnfold(os: seq<string>)
    requires |os| > 1
    ensures Listed(os) + "]" == os[0] + ("," + (Listed(os[1..]) + "]"))
  {
  }

  /** The corrected loop yields the objects laid out as `ListAt` says. */
  lemma {:induction false} SplitAt(data: string, from: nat, os: seq<string>)
    requires |data| < SizeModulus && AllBalanced(os) && ListAt(data, from, os)
    ensures Split(data, from) == os
    decreases |os|
  {
    var o := os[0];
    if |os| == 1 {
      SplitLast(data, from, o);
      assert os == [o];
    } else {
      SplitComma(data, from, o);
      SplitAt(data, from + |o| + 1, os[1..]);
      assert os == [o] + os[1..];
    }
  }

  lemma SuffixParts(data: string, from: nat, a: string, b: string)
    requires from <= |data| && data[from..] == a + b
    ensures from + |a| <= |data| && data[from..from + |a|] == a && data[from + |a|..] == b
  {
    assert data[from..][..|a|] == data[from..from + |a|];
    assert data[from..][|a|..] == data[from + |a|..];
  }

  /** An array of objects, "[{…},{…},…]", is split into its objects. */
  lemma SplitArray(os: seq<string>)
    requires |os| > 0 && AllBalanced(os)
    requires |Listed(os)| + 2 < SizeModulus
    ensures Split("[" + Listed(os) + "]", 0) == os
  {
    var data := "[" + Listed(os) + "]";
    assert data[1..] == Listed(os) + "]";
    SplitListed(data, 1, os);
    ScanSkip(data, 0, 0, 0);
    assert Segment(data, 0) == Segment(data, 1);
  }

  /** A single object, bare or in a one-element array, is the one slice the
      loop as written parses, and the corrected loop agrees. */
  lemma SingleObject(o: string)
    requires Balanced(o) && |o| + 2 < SizeModulus
    ensures Segment(o, 0).pos == |o| && Slice(o, Segment(o, 0)) == o && Split(o, 0) == [o]
    ensures var a := "[" + o + "]";
            Segment(a, 0).pos == |a| && Slice(a, Segment(a, 0)) == o && Split(a, 0) == [o]
  {
    assert o[0..|o|] == o;
    ScanObject(o, 0, o, 0, 0);
    SliceObject(o, 0, o, Segment(o, 0));
    var a := "[" + o + "]";
    assert a[1..1 + |o|] == o;
    ScanSkip(a, 0, 0, 0);
    ScanObject(a, 1, o, 0, 0);
    ScanSkip(a, 1 + |o|, 1, |o|);
    SliceObject(a, 1, o, Segment(a, 0));
  }

  /** A pass over an array whose first object is followed by a comma stops
      at that comma. */
  lemma FirstStop(data: string, o: string)
    requires Balanced(o) && |o| + 1 < |data| < SizeModulus
    requires data[0] == '[' && data[1..1 + |o|] == o && data[1 + |o|] == ','
    ensures Segment(data, 0).pos == 1 + |o|
  {
    ScanSkip(data, 0, 0, 0);
    ScanObject(data, 1, o, 0, 0);
    ScanComma(data, 1 + |o|, 1, |o|);
  }

  /** Two objects in an array: the loop as written stops at the comma and so
      throws on its next pass, while the corrected loop yields both. */
  lemma TwoObjects(o1: string, o2: string)
    requires Balanced(o1) && Balanced(o2) && |o1| + |o2| + 3 < SizeModulus
    ensures var a := "[" + o1 + "," + o2 + "]";
            Segment(a, 0).pos < |a| && Split(a, 0) == [o1, o2]
  {
    var a := "[" + o1 + "," + o2 + "]";
    assert Listed([o1, o2]) == o1 + "," + o2 by {
      assert [o1, o2][1..] == [o2];
    }
    assert a == "[" + Listed([o1, o2]) + "]";
    SplitArray([o1, o2]);
    assert a[1..1 + |o1|] == o1;
    assert a[1 + |o1|] == ',';
    FirstStop(a, o1);
  }
}
