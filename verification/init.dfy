/** The /init resource (init.cpp): reading an initialisation request, the
    unescaping of inline code, the file the code is installed to, and the
    context `handle` returns. Forking base64 and tar, `setenv` and writing
    the file are effects the model names but does not perform. */
module InitResource {
  import opened Wrappers
  import opened Json
  import Decimal
  import Uuid
  import opened ActionManifest
  import opened ThreadControl
  import opened ExecutionContext

  // ---------------------------------------------------------------------------
  // Unescaping the code (init.cpp:65-70)

  /** A backslash followed by 'n' starts at `i`. */
  predicate PairAt(s: seq<char>, i: int)
  {
    0 <= i && i + 1 < |s| && s[i] == '\\' && s[i + 1] == 'n'
  }

  predicate NoPair(s: seq<char>)
  {
    forall i :: 0 <= i < |s| ==> !PairAt(s, i)
  }

  /** Each backslash-'n' pair, taken left to right, becomes one newline; every
      other character is kept. */
  function Unescape(s: seq<char>): (r: seq<char>)
    ensures |r| <= |s|
    ensures r == [] <==> s == []
    ensures |r| > 0 && r[0] == 'n' ==> s[0] == 'n'
    decreases |s|
  {
    if |s| == 0 then []
    else if PairAt(s, 0) then "\n" + Unescape(s[2..])
    else [s[0]] + Unescape(s[1..])
  }

  /** The escaping a client applies before sending code: every newline
      written as backslash-'n'. */
  function Escape(t: seq<char>): (r: seq<char>)
    ensures |r| >= |t|
    decreases |t|
  {
    if |t| == 0 then []
    else if t[0] == '\n' then "\\n" + Escape(t[1..])
    else [t[0]] + Escape(t[1..])
  }

  /** `code.find("\\n", from)`: the first pair starting at or after `from`. */
  function Find(s: seq<char>, from: nat): (r: Option<nat>)
    requires from <= |s|
    ensures r.Some? ==> from <= r.value && PairAt(s, r.value)
    ensures forall q :: from <= q && (r.None? || q < r.value) ==> !PairAt(s, q)
    decreases |s| - from
  {
    if from + 1 >= |s| then None
    else if PairAt(s, from) then Some(from)
    else Find(s, from + 1)
  }

  /** Without a pair in `s[from..at]`, unescaping from `from` copies those
      characters. */
  lemma {:induction false} CopyUpTo(s: seq<char>, from: nat, at: nat)
    requires from <= at <= |s|
    requires forall q :: from <= q < at ==> !PairAt(s, q)
    ensures Unescape(s[from..]) == s[from..at] + Unescape(s[at..])
    decreases at - from
  {
    if from < at {
      var t := s[from..];
      assert !PairAt(t, 0) by {
        assert !PairAt(s, from);
      }
      assert t[1..] == s[from + 1..];
      CopyUpTo(s, from + 1, at);
      assert s[from..at] == [s[from]] + s[from + 1..at];
    }
  }

  lemma ReplaceStep(s: seq<char>, f: nat)
    requires PairAt(s, f)
    ensures Unescape(s[f..]) == "\n" + Unescape(s[f + 2..])
  {
    var t := s[f..];
    assert PairAt(t, 0);
    assert t[2..] == s[f + 2..];
  }

  /** One replacement keeps what the loop has produced plus what is left to
      unescape. */
  lemma ReplaceKeeps(code: seq<char>, pos: nat, at: nat)
    requires pos <= at && PairAt(code, at)
    requires forall q :: pos <= q < at ==> !PairAt(code, q)
    ensures var next := code[..at] + "\n" + code[at + 2..];
            at + 1 <= |next| && next[..at + 1] + Unescape(next[at + 1..]) == code[..pos] + Unescape(code[pos..])
  {
    CopyUpTo(code, pos, at);
    ReplaceStep(code, at);
    var next := code[..at] + "\n" + code[at + 2..];
    assert next[..at + 1] == code[..pos] + code[pos..at] + "\n";
    assert next[at + 1..] == code[at + 2..];
  }

  lemma FinishKeeps(code: seq<char>, pos: nat)
    requires pos <= |code|
    requires forall q :: pos <= q ==> !PairAt(code, q)
    ensures code[..pos] + Unescape(code[pos..]) == code
  {
    CopyUpTo(code, pos, |code|);
    assert code[..pos] + code[pos..] == code;
  }

  /** The loop of `handle`: find a pair from `pos`, replace it by a newline,
      continue after the newline. It computes `Unescape`. */
  method UnescapeCode(code0: seq<char>) returns (code: seq<char>)
    ensures code == Unescape(code0)
  {
    code := code0;
    var pos := 0;
    while true
      invariant pos <= |code|
      invariant Unescape(code0) == code[..pos] + Unescape(code[pos..])
      decreases |code| - pos
    {
      var f := Find(code, pos);
      if f.None? {
        FinishKeeps(code, pos);
        return;
      }
      var at := f.value;
      ReplaceKeeps(code, pos, at);
      code, pos := code[..at] + "\n" + code[at + 2..], at + 1;
    }
  }

  /** A pair in `[c] + t` past the first position is a pair in `t`. */
  lemma ShiftPair(c: char, t: seq<char>, i: nat)
    requires 1 <= i && PairAt([c] + t, i)
    ensures PairAt(t, i - 1)
  {
  }

  /** After unescaping, no backslash-'n' pair is left. */
  lemma {:induction false} UnescapeNoPair(s: seq<char>)
    ensures NoPair(Unescape(s))
    decreases |s|
  {
    if |s| > 0 {
      var rest := if PairAt(s, 0) then s[2..] else s[1..];
      var c := if PairAt(s, 0) then '\n' else s[0];
      UnescapeNoPair(rest);
      var r := Unescape(s);
      assert r == [c] + Unescape(rest);
      forall i | 0 <= i < |r| ensures !PairAt(r, i) {
        if i >= 1 {
          if PairAt(r, i) {
            ShiftPair(c, Unescape(rest), i);
          }
        } else if |r| > 1 && r[0] == '\\' {
          assert s[0] == '\\' && !PairAt(s, 0) && rest == s[1..];
          assert r[1] == Unescape(rest)[0];
        }
      }
    }
  }

  /** Text without pairs is left as it is. */
  lemma {:induction false} UnescapeFixed(t: seq<char>)
    requires NoPair(t)
    ensures Unescape(t) == t
    decreases |t|
  {
    if |t| > 0 {
      assert !PairAt(t, 0);
      assert NoPair(t[1..]) by {
        forall i | 0 <= i < |t[1..]| ensures !PairAt(t[1..], i) {
          assert !PairAt(t, i + 1);
        }
      }
      UnescapeFixed(t[1..]);
    }
  }

  /** Unescaping twice gives what unescaping once gives. */
  lemma UnescapeIdempotent(s: seq<char>)
    ensures Unescape(Unescape(s)) == Unescape(s)
  {
    UnescapeNoPair(s);
    UnescapeFixed(Unescape(s));
  }

  function Newlines(s: seq<char>): nat
    decreases |s|
  {
    if |s| == 0 then 0 else (if s[0] == '\n' then 1 else 0) + Newlines(s[1..])
  }

  /** Each replacement shortens the code by one and adds one newline: the
      length drops by exactly the number of newlines gained. */
  lemma {:induction false} UnescapeLength(s: seq<char>)
    ensures |s| - |Unescape(s)| == Newlines(Unescape(s)) - Newlines(s)
    decreases |s|
  {
    if |s| > 0 {
      var u := Unescape(s);
      if PairAt(s, 0) {
        UnescapeLength(s[2..]);
        assert s[1..][1..] == s[2..];
        assert Newlines(s) == Newlines(s[1..]) == Newlines(s[2..]);
        assert u[1..] == Unescape(s[2..]);
        assert Newlines(u) == 1 + Newlines(Unescape(s[2..]));
      } else {
        UnescapeLength(s[1..]);
        assert u[1..] == Unescape(s[1..]);
      }
    }
  }

  /** Code without pairs survives escaping and unescaping. */
  lemma {:induction false} UnescapeEscape(t: seq<char>)
    requires NoPair(t)
    ensures Unescape(Escape(t)) == t
    decreases |t|
  {
    if |t| > 0 {
      assert NoPair(t[1..]) by {
        forall i | 0 <= i < |t[1..]| ensures !PairAt(t[1..], i) {
          assert !PairAt(t, i + 1);
        }
      }
      UnescapeEscape(t[1..]);
      var e := Escape(t);
      if t[0] == '\n' {
        assert PairAt(e, 0) && e[2..] == Escape(t[1..]);
      } else {
        assert e[1..] == Escape(t[1..]);
        assert !PairAt(t, 0);
        EscapedHead(t);
      }
    }
  }

  /** A character other than a newline that does not start a pair in the
      code does not start one in its escaped form either. */
  lemma EscapedHead(t: seq<char>)
    requires |t| > 0 && t[0] != '\n' && !PairAt(t, 0)
    ensures !PairAt(Escape(t), 0)
  {
    var rest := Escape(t[1..]);
    assert Escape(t) == [t[0]] + rest;
    if |rest| > 0 && rest[0] == 'n' {
      EscapeHead(t[1..]);
    }
  }

  lemma EscapeHead(t: seq<char>)
    requires |Escape(t)| > 0 && Escape(t)[0] == 'n'
    ensures |t| > 0 && t[0] == 'n'
  {
  }

  /** Code containing no newline is recovered by escaping what unescaping
      produced: only the pairs were changed, each into one newline. */
  lemma {:induction false} EscapeUnescape(s: seq<char>)
    requires '\n' !in s
    ensures Escape(Unescape(s)) == s
    decreases |s|
  {
    if |s| > 0 {
      if PairAt(s, 0) {
        assert '\n' !in s[2..] by {
          forall i | 0 <= i < |s[2..]| ensures s[2..][i] != '\n' { assert s[2..][i] == s[i + 2]; }
        }
        EscapeUnescape(s[2..]);
        var u := Unescape(s);
        assert u[0] == '\n' && u[1..] == Unescape(s[2..]);
        assert s == "\\n" + s[2..];
      } else {
        assert '\n' !in s[1..] by {
          forall i | 0 <= i < |s[1..]| ensures s[1..][i] != '\n' { assert s[1..][i] == s[i + 1]; }
        }
        EscapeUnescape(s[1..]);
        var u := Unescape(s);
        assert u[0] == s[0] && u[1..] == Unescape(s[1..]);
        assert s[0] != '\n';
        assert s == [s[0]] + s[1..];
      }
    }
  }

  // ---------------------------------------------------------------------------
  // The request (init.cpp:12-34)

  /** The "value" object of an /init request; `env` holds the environment
      members in object order, each value stringified. */
  datatype InitValue = InitValue(name: string, main: string, code: string, binary: bool,
                                 env: seq<(string, string)>)

  /** The string an env member's value is stored as: strings verbatim,
      integers in decimal, a double as `std::to_string` writes it, and the
      empty string for null, booleans, arrays and objects. */
  function Stringify(v: Value): (r: string)
    ensures v.Str? ==> r == v.s
    ensures v.Int64? ==> Decimal.ReadSigned(r) == Some(v.i)
    ensures v.Uint64? ==> Decimal.ReadSigned(r) == Some(v.u as int) && r[0] != '-'
    ensures v.Double? ==> r == v.fixed
    ensures v.Null? || v.Bool? || v.Array? || v.Object? ==> r == ""
  {
    match v
    case Str(s) => s
    case Int64(i) =>
      Decimal.SignedRoundTrip(i);
      Decimal.SignedText(i)
    case Uint64(u) =>
      Decimal.SignedRoundTrip(u);
      Decimal.SignedText(u)
    case Double(f) => f
    case _ => ""
  }

  function EnvStrings(ms: seq<(string, Value)>): (r: seq<(string, string)>)
    ensures |r| == |ms|
    ensures forall i :: 0 <= i < |ms| ==> r[i].0 == ms[i].0 && r[i].1 == Stringify(ms[i].1)
  {
    seq(|ms|, i requires 0 <= i < |ms| => (ms[i].0, Stringify(ms[i].1)))
  }

  /** `obj[k].as_string()` and friends: a missing member reads as null, and a
      member of the wrong kind throws. */
  function StringField(ms: seq<(string, Value)>, k: string): (r: Result<string>)
    ensures r.Success? <==> Get(ms, k).Some? && Get(ms, k).value.Str?
    ensures r.Success? ==> Get(ms, k) == Some(Str(r.value))
  {
    match Get(ms, k)
    case Some(Str(s)) => Success(s)
    case _ => Failure("not a string")
  }

  function ObjectField(ms: seq<(string, Value)>, k: string): (r: Result<seq<(string, Value)>>)
    ensures r.Success? <==> Get(ms, k).Some? && Get(ms, k).value.Object?
    ensures r.Success? ==> Get(ms, k) == Some(Object(r.value))
  {
    match Get(ms, k)
    case Some(Object(o)) => Success(o)
    case _ => Failure("not an object")
  }

  function BoolField(ms: seq<(string, Value)>, k: string): (r: Result<bool>)
    ensures r.Success? <==> Get(ms, k).Some? && Get(ms, k).value.Bool?
    ensures r.Success? ==> Get(ms, k) == Some(Bool(r.value))
  {
    match Get(ms, k)
    case Some(Bool(b)) => Success(b)
    case _ => Failure("not a bool")
  }

  /** `Request(obj)`: the "value" object must hold strings "name", "main" and
      "code", a boolean "binary" and an object "env". */
  function ReadRequest(obj: seq<(string, Value)>): (r: Result<InitValue>)
    ensures ObjectField(obj, "value").Failure? ==> r.Failure?
    ensures ObjectField(obj, "value").Success? ==> r == ReadValue(ObjectField(obj, "value").value)
  {
    var v :- ObjectField(obj, "value");
    ReadValue(v)
  }

  function ReadValue(v: seq<(string, Value)>): (r: Result<InitValue>)
    ensures r.Success? <==> StringField(v, "name").Success? && StringField(v, "main").Success?
                            && StringField(v, "code").Success? && BoolField(v, "binary").Success?
                            && ObjectField(v, "env").Success?
    ensures r.Success? ==>
              Get(v, "name") == Some(Str(r.value.name)) && Get(v, "main") == Some(Str(r.value.main))
              && Get(v, "code") == Some(Str(r.value.code)) && Get(v, "binary") == Some(Bool(r.value.binary))
              && Get(v, "env").Some? && Get(v, "env").value.Object?
              && r.value.env == EnvStrings(Get(v, "env").value.members)
  {
    var name :- StringField(v, "name");
    var main :- StringField(v, "main");
    var code :- StringField(v, "code");
    var binary :- BoolField(v, "binary");
    var env :- ObjectField(v, "env");
    Success(InitValue(name, main, code, binary, EnvStrings(env)))
  }

  function StrMembers(env: seq<(string, string)>): (ms: seq<(string, Value)>)
    ensures |ms| == |env|
    ensures forall i :: 0 <= i < |env| ==> ms[i] == (env[i].0, Str(env[i].1))
  {
    seq(|env|, i requires 0 <= i < |env| => (env[i].0, Str(env[i].1)))
  }

  /** The "value" object a client sends for an action whose environment
      holds only strings. */
  function EncodeValue(req: InitValue): (v: seq<(string, Value)>)
    ensures |v| == 5
  {
    [("name", Str(req.name)), ("main", Str(req.main)), ("code", Str(req.code)),
     ("binary", Bool(req.binary)), ("env", Object(StrMembers(req.env)))]
  }

  function Encode(req: InitValue): (obj: seq<(string, Value)>)
    ensures obj == [("value", Object(EncodeValue(req)))]
  {
    [("value", Object(EncodeValue(req)))]
  }

  /** The member at position `p` is found when no earlier key matches. */
  lemma {:induction false} GetAt(ms: seq<(string, Value)>, p: nat)
    requires p < |ms|
    requires forall q :: 0 <= q < p ==> ms[q].0 != ms[p].0
    ensures Get(ms, ms[p].0) == Some(ms[p].1)
    decreases p
  {
    if p > 0 {
      var tail := ms[1..];
      assert tail[p - 1] == ms[p];
      GetAt(tail, p - 1);
    }
  }

  /** The five keys of an encoded value differ from each other. */
  lemma EncodedKeys(req: InitValue, p: nat, q: nat)
    requires q < p < 5
    ensures EncodeValue(req)[q].0 != EncodeValue(req)[p].0
  {
    var v := EncodeValue(req);
    assert v[q].0[0] != v[p].0[0];
  }

  lemma EncodedGet(req: InitValue, p: nat)
    requires p < 5
    ensures Get(EncodeValue(req), EncodeValue(req)[p].0) == Some(EncodeValue(req)[p].1)
  {
    forall q | 0 <= q < p ensures EncodeValue(req)[q].0 != EncodeValue(req)[p].0 {
      EncodedKeys(req, p, q);
    }
    GetAt(EncodeValue(req), p);
  }

  lemma EncodeFields(req: InitValue)
    ensures var v := EncodeValue(req);
            Get(v, "name") == Some(Str(req.name)) && Get(v, "main") == Some(Str(req.main))
            && Get(v, "code") == Some(Str(req.code)) && Get(v, "binary") == Some(Bool(req.binary))
            && Get(v, "env") == Some(Object(StrMembers(req.env)))
  {
    EncodedGet(req, 0);
    EncodedGet(req, 1);
    EncodedGet(req, 2);
    EncodedGet(req, 3);
    EncodedGet(req, 4);
  }

  /** Reading an encoded request gives back what was encoded. */
  lemma ReadEncode(req: InitValue)
    ensures ReadRequest(Encode(req)) == Success(req)
  {
    assert ObjectField(Encode(req), "value") == Success(EncodeValue(req)) by {
      GetAt(Encode(req), 0);
    }
    ReadEncodedValue(req);
  }

  lemma ReadEncodedValue(req: InitValue)
    ensures ReadValue(EncodeValue(req)) == Success(req)
  {
    var v := EncodeValue(req);
    EncodeFields(req);
    StringsRoundTrip(req.env);
    assert StringField(v, "name") == Success(req.name);
    assert StringField(v, "main") == Success(req.main);
    assert StringField(v, "code") == Success(req.code);
    assert BoolField(v, "binary") == Success(req.binary);
    assert ObjectField(v, "env") == Success(StrMembers(req.env));
  }

  lemma StringsRoundTrip(env: seq<(string, string)>)
    ensures EnvStrings(StrMembers(env)) == env
  {
  }

  // ---------------------------------------------------------------------------
  // Installing the action (init.cpp:36-90)

  /** What the fiber of `handle` does once resumed: it exports the entry point,
      then either decodes an archive to `path` (exporting the env pairs) or
      writes the unescaped code to `path`. */
  datatype Setup =
    | Archive(entry: string, path: string, encoded: string, exports: seq<(string, string)>)
    | Source(entry: string, path: string, text: string)

  function Install(req: InitValue, env: Env): (r: Result<Setup>)
    ensures env.actions.None? ==> r.Failure?
    ensures env.actions.Some? && req.binary ==>
              (r.Success? && r.value.Archive?
               && r.value.path == Join(env.actions.value, "archive.tgz")
               && r.value.encoded == req.code && r.value.exports == req.env)
    ensures env.actions.Some? && !req.binary && env.ext.None? ==> r.Failure?
    ensures env.actions.Some? && !req.binary && env.ext.Some? ==>
              (r.Success? && r.value.Source?
               && r.value.path == Join(env.actions.value, "main." + env.ext.value)
               && r.value.text == Unescape(req.code)
               && NoPair(r.value.text) && Unescape(r.value.text) == r.value.text
               && (NoPair(req.code) ==> r.value.text == req.code))
    ensures r.Success? ==> r.value.entry == req.main
  {
    if env.actions.None? then Failure("Environment variable __OW_ACTIONS not defined.")
    else if req.binary then Success(Archive(req.main, Join(env.actions.value, "archive.tgz"), req.code, req.env))
    else if env.ext.None? then Failure("Environment variable __OW_ACTION_EXT not defined.")
    else
      UnescapeNoPair(req.code);
      UnescapeIdempotent(req.code);
      if NoPair(req.code) then UnescapeFixed(req.code); Success(Source(req.main, Join(env.actions.value, "main." + env.ext.value), Unescape(req.code)))
      else Success(Source(req.main, Join(env.actions.value, "main." + env.ext.value), Unescape(req.code)))
  }

  /** `handle(req)`: an Init context holding one fresh thread control, whose
      fiber will perform `Install` when resumed. */
  function Handle(id: Uuid.Uuid): (c: Context)
    ensures c.route == Init && c.id == id && c.stack == [0] && c.manifest == []
    ensures |c.threads| == 1 && c.threads[0].valid && !Stopped(c.threads[0]) && c.threads[0].idxs == []
  {
    FreshState();
    InitContext(id).(threads := [Fresh])
  }
}
