/** The controller's decisions (controller-app.cpp): clearing the scheduler
    signal word, the `initialized_` flag, the responses `create_response`
    builds, splitting a request chunk into JSON objects, dispatching a /run
    request to a thread, and the SCHED_END sweep over the contexts. Sockets,
    sessions, threads and fibers are not modelled; JSON parsing and
    serialising, the environment and the filesystem are parameters. */
module ControllerApp {
  import opened Wrappers
  import opened Power
  import opened Bits
  import opened Signals
  import Json
  import Decimal
  import Uuid
  import opened ActionRelation
  import opened ActionManifest
  import opened ThreadControl
  import opened ExecutionContext
  import InitResource

  // ---------------------------------------------------------------------------
  // The scheduler signal word (controller-app.cpp:40-46)

  /** The scheduling loop runs while TERMINATE is clear. */
  predicate Running(signal: nat)
  {
    And(signal, Terminate, Width) != Terminate
  }

  lemma RunningBit(signal: nat)
    ensures Running(signal) <==> !BitsOf(signal, Width)[15]
  {
    SignalBits();
    FlagTest(signal, 15, Width);
  }

  /** `fetch_and(~(snapshot & ~TERMINATE))` applied to the word as it is now,
      which may have gained bits since `snapshot` was loaded. */
  function Clear(current: nat, snapshot: nat): (r: nat)
    ensures r < Pow(2, Width)
    ensures forall i :: 0 <= i < Width ==>
              BitsOf(r, Width)[i] == (BitsOf(current, Width)[i] && (i == 15 || !BitsOf(snapshot, Width)[i]))
  {
    var r := And(current, Not(And(snapshot, Not(Terminate, Width), Width), Width), Width);
    SignalBits();
    forall i | 0 <= i < Width
      ensures BitsOf(r, Width)[i] == (BitsOf(current, Width)[i] && (i == 15 || !BitsOf(snapshot, Width)[i]))
    {
      SingleBit(15, Width, i);
    }
    r
  }

  /** Clearing keeps TERMINATE as it is, so a terminating loop stays
      terminating. */
  lemma ClearKeepsTerminate(current: nat, snapshot: nat)
    ensures Running(Clear(current, snapshot)) <==> Running(current)
  {
    RunningBit(current);
    RunningBit(Clear(current, snapshot));
  }

  /** A word unchanged since its snapshot is left holding at most TERMINATE. */
  lemma ClearSnapshot(s: nat)
    requires s < Pow(2, Width)
    ensures Clear(s, s) == And(s, Terminate, Width)
    ensures Clear(s, s) == 0 || Clear(s, s) == Terminate
  {
    SignalBits();
    var a, b := Clear(s, s), And(s, Terminate, Width);
    forall i | 0 <= i < Width ensures BitsOf(a, Width)[i] == BitsOf(b, Width)[i] {
      SingleBit(15, Width, i);
    }
    assert BitsOf(a, Width) == BitsOf(b, Width);
    BitsInjective(a, b, Width);
    FlagTest(s, 15, Width);
  }

  // ---------------------------------------------------------------------------
  // Responses (controller-app.cpp:358-380, 384-513)

  datatype Status = Ok | NotFound | Conflict | InternalServerError

  function Code(s: Status): nat
  {
    match s
    case Ok => 200
    case NotFound => 404
    case Conflict => 409
    case InternalServerError => 500
  }

  datatype Field = ContentType | ContentLength | Connection | EndOfHeaders

  /** `HttpResponse`: the HTTP version, the status, the headers and the body. */
  datatype Response = Response(version: string, status: Status, headers: seq<(Field, string)>, body: string)

  /** The value of the first header with this field. */
  function Header(r: Response, f: Field): Option<string>
  {
    HeaderIn(r.headers, f)
  }

  function HeaderIn(hs: seq<(Field, string)>, f: Field): Option<string>
  {
    if |hs| == 0 then None else if hs[0].0 == f then Some(hs[0].1) else HeaderIn(hs[1..], f)
  }

  /** Every response the controller writes: the version of the request it
      answers, JSON content, the length of the body, `Connection: close` and
      the end of the headers. */
  function Respond(version: string, status: Status, body: string): (r: Response)
    ensures r.version == version && r.status == status && r.body == body
    ensures Header(r, ContentType) == Some("application/json") && Header(r, Connection) == Some("close")
    ensures Header(r, ContentLength) == Some(Decimal.Text(|body|))
    ensures Decimal.Value(Header(r, ContentLength).value) == |body|
    ensures |r.headers| == 4 && r.headers[3] == (EndOfHeaders, "")
  {
    Decimal.TextValue(|body|);
    var hs := [(ContentType, "application/json"), (ContentLength, Decimal.Text(|body|)),
               (Connection, "close"), (EndOfHeaders, "")];
    assert HeaderIn(hs, ContentType) == Some("application/json");
    assert HeaderIn(hs[1..], ContentLength) == Some(Decimal.Text(|body|));
    assert HeaderIn(hs[1..][1..], Connection) == Some("close");
    assert HeaderIn(hs, Connection) == HeaderIn(hs[1..], Connection) == HeaderIn(hs[1..][1..], Connection);
    Response(version, status, hs, body)
  }

  /** An empty body is announced as length "0". */
  lemma EmptyLength(version: string, status: Status)
    ensures Header(Respond(version, status, ""), ContentLength) == Some("0")
  {
    assert Decimal.DigitChar(0) == '0';
    assert Decimal.Text(0) == "0";
  }

  /** The INIT branch: CONFLICT once initialised, otherwise OK. */
  function InitResponse(version: string, initialized: bool): (r: Response)
    ensures r.version == version
    ensures r.status == (if initialized then Conflict else Ok) && r.body == ""
    ensures Header(r, ContentLength) == Some("0")
  {
    EmptyLength(version, if initialized then Conflict else Ok);
    Respond(version, if initialized then Conflict else Ok, "")
  }

  /** What `create_response` reads besides the context: the HTTP version of
      the request in the context's session (the last session for /run, the
      first for /init; sessions are not modelled), whether `__OW_ACTIONS` is
      set, whether `<actions>/action-manifest.json` exists, and the JSON
      parser and serialiser. */
  datatype Host = Host(version: Context -> string, actionsSet: bool, manifestExists: bool,
                       parse: string -> Option<Json.Value>, serialize: Json.Value -> string)

  /** Each relation's value parsed as a JSON object; `as_object` throws on
      anything else. */
  function Values(rs: seq<Relation>, parse: string -> Option<Json.Value>): (r: Result<seq<seq<(string, Json.Value)>>>)
    ensures r.Success? <==> forall i :: 0 <= i < |rs| ==> IsObject(parse(rs[i].value))
    ensures r.Success? ==> |r.value| == |rs| && forall i :: 0 <= i < |rs| ==> parse(rs[i].value) == Some(Json.Object(r.value[i]))
    decreases |rs|
  {
    if |rs| == 0 then Success([])
    else
      match parse(rs[0].value)
      case Some(Object(ms)) =>
        var rest :- Values(rs[1..], parse);
        assert forall i :: 1 <= i < |rs| ==> rs[i] == rs[1..][i - 1];
        Success([ms] + rest)
      case _ => Failure("not an object")
  }

  predicate IsObject(v: Option<Json.Value>)
  {
    v.Some? && v.value.Object?
  }

  /** No relation value has an "error" member. */
  predicate ErrorFree(vals: seq<seq<(string, Json.Value)>>)
  {
    forall i :: 0 <= i < |vals| ==> "error" !in Json.MemberKeys(vals[i])
  }

  /** The object serialised for the body: keyed by relation when a manifest
      exists, otherwise the last relation's value (the empty object for
      none). */
  function Body(rs: seq<Relation>, vals: seq<seq<(string, Json.Value)>>, manifestExists: bool): (v: Json.Value)
    requires |vals| == |rs|
    ensures v.Object?
    ensures manifestExists ==> Json.MemberKeys(v.members) == Keys(rs)
    ensures manifestExists ==> forall i :: 0 <= i < |rs| ==> v.members[i].1 == Json.Object(vals[i])
    ensures !manifestExists && |rs| > 0 ==> v == Json.Object(vals[|rs| - 1])
  {
    if manifestExists then Json.Object(seq(|rs|, i requires 0 <= i < |rs| => (rs[i].key, Json.Object(vals[i]))))
    else if |rs| == 0 then Json.Object([])
    else Json.Object(vals[|rs| - 1])
  }

  /** The RUN branch: NOT_FOUND before initialisation, 500 while a thread is
      still running, and once all are stopped OK with the serialised values
      unless one of them holds an "error" member. An unset `__OW_ACTIONS` or a
      value that is not a JSON object throws. */
  function RunResponse(ctx: Context, initialized: bool, host: Host): (r: Result<Response>)
    ensures r.Success? ==> r.value.version == host.version(ctx)
    ensures !initialized ==> r == Success(Respond(host.version(ctx), NotFound, ""))
    ensures initialized && !AllStopped(ctx) ==> r == Success(Respond(host.version(ctx), InternalServerError, ""))
    ensures initialized && AllStopped(ctx) ==>
              (r.Failure? <==> !host.actionsSet || Values(ctx.manifest, host.parse).Failure?)
    ensures r.Success? && initialized && AllStopped(ctx) ==>
              var vals := Values(ctx.manifest, host.parse).value;
              (r.value.status == Ok <==> ErrorFree(vals))
              && (ErrorFree(vals) ==> r.value == Respond(host.version(ctx), Ok, host.serialize(Body(ctx.manifest, vals, host.manifestExists))))
              && (!ErrorFree(vals) ==> r.value == Respond(host.version(ctx), InternalServerError, ""))
  {
    if !initialized then Success(Respond(host.version(ctx), NotFound, ""))
    else if AllStopped(ctx) then
      if !host.actionsSet then Failure("environment variable __OW_ACTIONS is not defined.")
      else
        var vals :- Values(ctx.manifest, host.parse);
        if ErrorFree(vals) then Success(Respond(host.version(ctx), Ok, host.serialize(Body(ctx.manifest, vals, host.manifestExists))))
        else Success(Respond(host.version(ctx), InternalServerError, ""))
    else Success(Respond(host.version(ctx), InternalServerError, ""))
  }

  function CreateResponse(ctx: Context, initialized: bool, host: Host): (r: Result<Response>)
    ensures r.Success? ==> r.value.version == host.version(ctx)
    ensures ctx.route == Init ==> r == Success(InitResponse(host.version(ctx), initialized))
    ensures ctx.route == Run ==> r == RunResponse(ctx, initialized, host)
  {
    match ctx.route
    case Init => Success(InitResponse(host.version(ctx), initialized))
    case Run => RunResponse(ctx, initialized, host)
  }

  /** Every response the controller can produce answers in the version of
      the context's request and announces the true length of its body. */
  lemma ResponseLength(ctx: Context, initialized: bool, host: Host)
    requires CreateResponse(ctx, initialized, host).Success?
    ensures var r := CreateResponse(ctx, initialized, host).value;
            r.version == host.version(ctx)
            && Decimal.Value(Header(r, ContentLength).value) == |r.body|
            && Header(r, Connection) == Some("close")
  {
  }

  // ---------------------------------------------------------------------------
  // Routing (controller-app.cpp:154-165, 358-380)

  datatype Path = RunPath | InitPath | OtherPath

  function Classify(route: string): (k: Path)
    ensures k == RunPath <==> route == "/run"
    ensures k == InitPath <==> route == "/init"
  {
    if route == "/run" then RunPath else if route == "/init" then InitPath else OtherPath
  }

  /** The response written directly by `route_request`: none before the
      first chunk has arrived or for /run and /init (those are answered from
      their contexts), and 404 with no body for any other route. */
  function DirectResponse(route: string, chunks: nat, version: string): (r: Option<Response>)
    ensures r.Some? <==> chunks > 0 && route != "/run" && route != "/init"
    ensures r.Some? ==> r.value.version == version && r.value.status == NotFound && r.value.body == ""
                        && Header(r.value, Connection) == Some("close") && Header(r.value, ContentLength) == Some("0")
  {
    EmptyLength(version, NotFound);
    if chunks > 0 && Classify(route) == OtherPath then Some(Respond(version, NotFound, "")) else None
  }

  // ---------------------------------------------------------------------------
  // The `initialized_` flag (controller-app.cpp:12, 320-355)

  datatype App = App(initialized: bool)

  /** The controller is constructed uninitialised. */
  const Start: App := App(false)

  /** The /init route: the Init context of `handle`, its response, and the
      flag afterwards. A repeated /init only drops the fibers of the new
      context's threads (`invalidate_fiber`), and a first one resumes them;
      fibers are not part of this model, so in both cases the context stays
      as `handle` made it. A first /init marks the controller initialised
      when the response is OK (it is). */
  function InitRoute(app: App, id: Uuid.Uuid, version: string): (r: (App, Context, Response))
    ensures r.2 == InitResponse(version, app.initialized)
    ensures r.0.initialized
    ensures r.1.route == Init && r.1.id == id && |r.1.threads| == 1
    ensures app.initialized ==> r.0 == app && r.1 == InitResource.Handle(id)
    ensures !app.initialized ==> r.1 == InitResource.Handle(id)
  {
    var ctx := InitResource.Handle(id);
    // `create_response` takes its INIT branch for this context.
    var res := InitResponse(version, app.initialized);
    if app.initialized then (app, ctx, res)
    else if res.status == Ok then (App(true), ctx, res)
    else (app, ctx, res)
  }

  /** The requests that reach the controller, reduced to what the flag
      depends on. */
  datatype Request = InitRequest(id: Uuid.Uuid, version: string) | RunRequest | OtherRequest

  function Step(app: App, req: Request): App
  {
    match req
    case InitRequest(id, version) => InitRoute(app, id, version).0
    case _ => app
  }

  function Replay(app: App, reqs: seq<Request>): App
    decreases |reqs|
  {
    if |reqs| == 0 then app else Replay(Step(app, reqs[0]), reqs[1..])
  }

  /** The flag only ever changes from false to true, and only on an /init
      answered OK. */
  lemma StepMonotone(app: App, req: Request)
    ensures app.initialized ==> Step(app, req).initialized
    ensures !app.initialized && Step(app, req).initialized ==>
              req.InitRequest? && InitRoute(app, req.id, req.version).2.status == Ok
  {
  }

  /** From the start, the controller is initialised exactly when some /init
      request has been handled. */
  lemma {:induction false} InitializedIff(app: App, reqs: seq<Request>)
    ensures Replay(app, reqs).initialized <==>
              app.initialized || exists i :: 0 <= i < |reqs| && reqs[i].InitRequest?
    decreases |reqs|
  {
    if |reqs| > 0 {
      var next := Step(app, reqs[0]);
      InitializedIff(next, reqs[1..]);
      assert forall i :: 1 <= i < |reqs| ==> reqs[i] == reqs[1..][i - 1];
      if !app.initialized && !reqs[0].InitRequest? {
        assert next == app;
        if exists i :: 0 <= i < |reqs| && reqs[i].InitRequest? {
          var i :| 0 <= i < |reqs| && reqs[i].InitRequest?;
          assert reqs[1..][i - 1].InitRequest?;
        }
      }
    }
  }

  lemma InitializedFromStart(reqs: seq<Request>)
    ensures Replay(Start, reqs).initialized <==> exists i :: 0 <= i < |reqs| && reqs[i].InitRequest?
  {
    InitializedIff(Start, reqs);
  }

  // ---------------------------------------------------------------------------
  // Dispatching a /run request (controller-app.cpp:273-303)

  /** What the manifest operations need of a context: distinct keys, and
      every dependency indexed and shallower than its dependent, as the Run
      constructor leaves it. */
  predicate Indexed(c: Context)
  {
    Unique(Keys(c.manifest)) && Layered(c.manifest)
  }

  /** A /run request either notifies the thread of the relation to run next
      or, with nothing left to run, raises SCHED_END on the scheduler. */
  datatype Dispatched = Notified(ctx: Context, thread: nat) | Ended(ctx: Context)

  /** Pop the execution index, start from the relation at that index modulo
      the manifest size, take `next` from there, and notify the thread at the
      position of the relation it returns. An empty stack throws, an empty
      manifest divides by zero, and a position with no thread control is out
      of range. */
  function Dispatch(ctx: Context): (r: Result<Dispatched>)
    requires Indexed(ctx)
    ensures ctx.stack == [] || ctx.manifest == [] ==> r.Failure?
    ensures r.Success? ==> r.value.ctx == Pop(ctx).value.0.(threads := r.value.ctx.threads)
    ensures r.Success? && r.value.Ended? ==> r.value.ctx == Pop(ctx).value.0
    ensures r.Success? && r.value.Notified? ==>
              var p := r.value.thread;
              var idx := Pop(ctx).value.1;
              p < |ctx.threads| && p < |ctx.manifest|
              && r.value.ctx.threads == ctx.threads[p := Notify(ctx.threads[p], idx)]
              && (!AllComplete(ctx.manifest) ==>
                    !Complete(ctx.manifest[p])
                    && Present(ctx.manifest, ctx.manifest[p].deps)
                    && forall k :: 0 <= k < |ctx.manifest[p].deps| ==> DepComplete(ctx.manifest, ctx.manifest[p].deps[k]))
  {
    var (c, idx) :- Pop(ctx);
    if |c.manifest| == 0 then Failure("integer division by zero")
    else
      var k := idx % |c.manifest|;
      UniqueAt(c.manifest, k);
      var start := Next(c.manifest, c.manifest[k].key, idx).value;
      match At(c.manifest, start.key)
      case None => Success(Ended(c))
      case Some(p) =>
        if p < |c.threads| then
          AtBound(c.manifest, start.key);
          Success(Notified(c.(threads := c.threads[p := Notify(c.threads[p], idx)]), p))
        else Failure("thread control index out of range")
  }

  lemma AtBound(idx: seq<Relation>, k: string)
    requires At(idx, k).Some?
    ensures At(idx, k).value < |idx| && idx[At(idx, k).value].key == k
  {
  }

  /** With every relation complete (and no relation keyed by the empty
      string, the default relation's key) a /run request only raises
      SCHED_END. */
  lemma DispatchComplete(ctx: Context)
    requires Indexed(ctx) && ctx.stack != [] && ctx.manifest != []
    requires AllComplete(ctx.manifest) && "" !in Keys(ctx.manifest)
    ensures Dispatch(ctx) == Success(Ended(Pop(ctx).value.0))
  {
    var (c, idx) := Pop(ctx).value;
    var k := idx % |c.manifest|;
    assert forall j :: 0 <= j < |Keys(c.manifest)| ==> Keys(c.manifest)[j] != "";
  }

  /** While some relation is incomplete and every relation has a thread, a
      /run request notifies a thread, which may then proceed. */
  lemma DispatchStarts(ctx: Context)
    requires Indexed(ctx) && ctx.stack != [] && |ctx.threads| == |ctx.manifest| > 0
    requires !AllComplete(ctx.manifest)
    ensures Dispatch(ctx).Success? && Dispatch(ctx).value.Notified?
    ensures var d := Dispatch(ctx).value;
            Started(d.ctx.threads[d.thread]) && d.ctx.threads[d.thread].valid == ctx.threads[d.thread].valid
  {
    var (c, idx) := Pop(ctx).value;
    var k := idx % |c.manifest|;
    UniqueAt(c.manifest, k);
    var start := Next(c.manifest, c.manifest[k].key, idx).value;
    AtBound(c.manifest, start.key);
    var d := Dispatch(ctx).value;
    NotifyFlags(ctx.threads[d.thread], idx);
  }

  // ---------------------------------------------------------------------------
  // The SCHED_END sweep (controller-app.cpp:80-146)

  /** A thread the sweep looks for: stopped and still valid. */
  predicate Waits(t: Control)
  {
    Stopped(t) && t.valid
  }

  /** How many threads of a context wait for the sweep. */
  function Waiting(ts: seq<Control>): nat
    decreases |ts|
  {
    if |ts| == 0 then 0 else (if Waits(ts[0]) then 1 else 0) + Waiting(ts[1..])
  }

  /** The first waiting thread. */
  function FirstWaiting(ts: seq<Control>): (r: Option<nat>)
    ensures r.Some? <==> Waiting(ts) > 0
    ensures r.Some? ==> r.value < |ts| && Waits(ts[r.value])
    decreases |ts|
  {
    if |ts| == 0 then None
    else if Waits(ts[0]) then Some(0)
    else match FirstWaiting(ts[1..])
      case None => None
      case Some(i) => Some(i + 1)
  }

  /** Replacing one thread control changes the count by the difference its
      own state makes. */
  lemma {:induction false} WaitingUpdate(ts: seq<Control>, p: nat, t: Control)
    requires p < |ts|
    ensures Waiting(ts[p := t]) + (if Waits(ts[p]) then 1 else 0) == Waiting(ts) + (if Waits(t) then 1 else 0)
    decreases |ts|
  {
    if p > 0 {
      assert ts[p := t][1..] == ts[1..][p - 1 := t];
      WaitingUpdate(ts[1..], p - 1, t);
    }
  }

  /** Invalidating a waiting thread takes it out of the count; notifying a
      thread leaves the count as it was. */
  lemma InvalidateCounts(ts: seq<Control>, p: nat, idx: nat)
    requires p < |ts|
    ensures Waits(ts[p]) ==> Waiting(ts[p := Invalidated(ts[p])]) + 1 == Waiting(ts)
    ensures Waiting(ts[p := Notify(ts[p], idx)]) == Waiting(ts)
  {
    WaitingUpdate(ts, p, Invalidated(ts[p]));
    WaitingUpdate(ts, p, Notify(ts[p], idx));
    NotifyFlags(ts[p], idx);
  }

  /** Waiting threads over all contexts. */
  function Pending(cs: seq<Context>): nat
    decreases |cs|
  {
    if |cs| == 0 then 0 else Waiting(cs[0].threads) + Pending(cs[1..])
  }

  lemma {:induction false} PendingUpdate(cs: seq<Context>, i: nat, c: Context)
    requires i < |cs|
    ensures Pending(cs[i := c]) + Waiting(cs[i].threads) == Pending(cs) + Waiting(c.threads)
    decreases |cs|
  {
    if i > 0 {
      assert cs[i := c][1..] == cs[1..][i - 1 := c];
      PendingUpdate(cs[1..], i - 1, c);
    }
  }

  /** The `find_if` over the contexts from `from`: the first context with a
      waiting thread. */
  function FirstContext(cs: seq<Context>, from: nat): (r: Option<nat>)
    ensures r.Some? ==> from <= r.value < |cs| && Waiting(cs[r.value].threads) > 0
    ensures r.Some? ==> forall j :: from <= j < r.value ==> Waiting(cs[j].threads) == 0
    ensures r.None? ==> forall j :: from <= j < |cs| ==> Waiting(cs[j].threads) == 0
    decreases |cs| - from
  {
    if from >= |cs| then None
    else if Waiting(cs[from].threads) > 0 then Some(from)
    else FirstContext(cs, from + 1)
  }

  function Ids(cs: seq<Context>): (ids: seq<Uuid.Uuid>)
    ensures |ids| == |cs| && forall i :: 0 <= i < |cs| ==> ids[i] == cs[i].id
  {
    seq(|cs|, i requires 0 <= i < |cs| => cs[i].id)
  }

  lemma EraseIds(cs: seq<Context>, i: nat)
    requires i < |cs|
    ensures multiset(Ids(cs[..i] + cs[i + 1..])) + multiset{cs[i].id} == multiset(Ids(cs))
  {
    assert Ids(cs) == Ids(cs[..i]) + [cs[i].id] + Ids(cs[i + 1..]);
    assert Ids(cs[..i] + cs[i + 1..]) == Ids(cs[..i]) + Ids(cs[i + 1..]);
  }

  /** The threads of a stopped-but-running context after its first waiting
      thread `t` is invalidated and the indices `invalidate` returns are
      passed on: each index is given to the thread of the relation `next`
      returns, starting from the key after `t`'s position. The indices are
      those of the corrected `invalidate` (every index `t` held); the copy as
      written keeps only the first bytes of them (`InvalidateAsWritten`). `next` returning the default
      relation (nothing left to run) leaves no thread to notify: the source
      indexes one past the end there. */
  method Hand(c: Context, t: nat) returns (r: Result<seq<Control>>)
    requires Indexed(c) && t < |c.threads| && Waits(c.threads[t])
    ensures r.Success? ==> |r.value| == |c.threads| && Waiting(r.value) + 1 == Waiting(c.threads)
    ensures r.Success? ==> !r.value[t].valid
    ensures (t + 1) % |c.threads| >= |c.manifest| ==> r.Failure?
  {
    var (ctl, idxs) := Invalidate(c.threads[t]);
    var threads := c.threads[t := ctl];
    InvalidateCounts(c.threads, t, 0);
    var k := (t + 1) % |threads|;
    if k >= |c.manifest| {
      return Failure("manifest index out of range");
    }
    UniqueAt(c.manifest, k);
    var key := c.manifest[k].key;
    var j := 0;
    while j < |idxs|
      invariant 0 <= j <= |idxs| && |threads| == |c.threads|
      invariant Waiting(threads) + 1 == Waiting(c.threads)
      invariant !threads[t].valid
    {
      var next := Next(c.manifest, key, idxs[j]).value;
      var p := At(c.manifest, next.key);
      if p.None? || p.value >= |threads| {
        return Failure("thread control index out of range");
      }
      InvalidateCounts(threads, p.value, idxs[j]);
      threads := threads[p.value := Notify(threads[p.value], idxs[j])];
      j := j + 1;
    }
    return Success(threads);
  }

  /** Each answered context had all its threads stopped, and its answer is
      the response `create_response` builds for it. */
  predicate Answered(answered: seq<Context>, responses: seq<Response>, initialized: bool, host: Host)
  {
    |responses| == |answered|
    && forall k :: 0 <= k < |answered| ==>
         AllStopped(answered[k]) && Success(responses[k]) == CreateResponse(answered[k], initialized, host)
  }

  predicate AllIndexed(cs: seq<Context>)
  {
    forall i :: 0 <= i < |cs| ==> Indexed(cs[i])
  }

  /** No context before position `n` has a waiting thread. */
  predicate Settled(cs: seq<Context>, n: nat)
    requires n <= |cs|
  {
    forall j :: 0 <= j < n ==> Waiting(cs[j].threads) == 0
  }

  lemma AnswerOne(answered: seq<Context>, responses: seq<Response>, initialized: bool, host: Host,
                  c: Context, res: Response)
    requires Answered(answered, responses, initialized, host)
    requires AllStopped(c) && Success(res) == CreateResponse(c, initialized, host)
    ensures Answered(answered + [c], responses + [res], initialized, host)
  {
    var a, rs := answered + [c], responses + [res];
    forall k | 0 <= k < |a|
      ensures AllStopped(a[k]) && Success(rs[k]) == CreateResponse(a[k], initialized, host)
    {
      if k < |answered| {
        assert a[k] == answered[k] && rs[k] == responses[k];
      }
    }
  }

  /** Erasing a context keeps the rest indexed and accounts for its id. */
  lemma Erase(cs: seq<Context>, i: nat, answered: seq<Context>, ctxs: seq<Context>)
    requires i < |cs| && AllIndexed(cs)
    requires multiset(Ids(cs)) + multiset(Ids(answered)) == multiset(Ids(ctxs))
    ensures AllIndexed(cs[..i] + cs[i + 1..])
    ensures multiset(Ids(cs[..i] + cs[i + 1..])) + multiset(Ids(answered + [cs[i]])) == multiset(Ids(ctxs))
  {
    EraseIds(cs, i);
    assert Ids(answered + [cs[i]]) == Ids(answered) + [cs[i].id];
    var e := cs[..i] + cs[i + 1..];
    forall j | 0 <= j < |e| ensures Indexed(e[j]) {
      if j < i { assert e[j] == cs[j]; } else { assert e[j] == cs[j + 1]; }
    }
  }

  /** Replacing a context's threads keeps it indexed, keeps its id, leaves
      the contexts before it settled and takes one waiting thread off the
      total. */
  lemma Replace(cs: seq<Context>, i: nat, ts: seq<Control>, answered: seq<Context>, ctxs: seq<Context>)
    requires i < |cs| && AllIndexed(cs) && Settled(cs, i)
    requires multiset(Ids(cs)) + multiset(Ids(answered)) == multiset(Ids(ctxs))
    requires Waiting(ts) + 1 == Waiting(cs[i].threads)
    ensures var u := cs[i := cs[i].(threads := ts)];
            AllIndexed(u) && Settled(u, i) && Pending(u) < Pending(cs)
            && multiset(Ids(u)) + multiset(Ids(answered)) == multiset(Ids(ctxs))
  {
    var u := cs[i := cs[i].(threads := ts)];
    PendingUpdate(cs, i, cs[i].(threads := ts));
    assert Ids(u) == Ids(cs);
    assert forall j :: 0 <= j < |u| && j != i ==> u[j] == cs[j];
  }

  /** The sweep: while some context has a waiting thread, a context whose
      threads are all stopped is answered with `create_response` and erased
      (the search restarting from the front); otherwise its first waiting
      thread hands its indices on and the search resumes at that context.
      Afterwards no context has a waiting thread, every context is either
      kept or answered exactly once, and every answer is the response to a
      context whose threads had all stopped. Sessions are not modelled: one
      response stands for those written to each of the context's sessions. */
  method Sweep(ctxs: seq<Context>, initialized: bool, host: Host)
    returns (r: Result<(seq<Context>, seq<Context>, seq<Response>)>)
    requires AllIndexed(ctxs)
    ensures r.Success? ==> var (kept, answered, responses) := r.value;
              (forall i :: 0 <= i < |kept| ==> Waiting(kept[i].threads) == 0)
              && multiset(Ids(kept)) + multiset(Ids(answered)) == multiset(Ids(ctxs))
              && Answered(answered, responses, initialized, host)
    ensures Pending(ctxs) == 0 ==> r == Success((ctxs, [], []))
  {
    var cs := ctxs;
    var answered: seq<Context> := [];
    var responses: seq<Response> := [];
    var found: Option<nat> := FirstContext(cs, 0);
    if Pending(ctxs) == 0 {
      NoPending(ctxs);
    }
    while found.Some?
      invariant AllIndexed(cs)
      invariant found.Some? ==> found.value < |cs| && Waiting(cs[found.value].threads) > 0
      invariant Settled(cs, if found.Some? then found.value else |cs|)
      invariant multiset(Ids(cs)) + multiset(Ids(answered)) == multiset(Ids(ctxs))
      invariant Answered(answered, responses, initialized, host)
      invariant Pending(ctxs) == 0 ==> found.None? && cs == ctxs && answered == [] && responses == []
      decreases |cs|, Pending(cs)
    {
      var i := found.value;
      var c := cs[i];
      var stopped := IsStopped(c);
      if stopped {
        var res := CreateResponse(c, initialized, host);
        if res.Failure? {
          return Failure(res.error);
        }
        AnswerOne(answered, responses, initialized, host, c, res.value);
        Erase(cs, i, answered, ctxs);
        answered, responses := answered + [c], responses + [res.value];
        cs := cs[..i] + cs[i + 1..];
        found := FirstContext(cs, 0);
      } else {
        var t := FirstWaiting(c.threads).value;
        var threads := Hand(c, t);
        if threads.Failure? {
          return Failure(threads.error);
        }
        Replace(cs, i, threads.value, answered, ctxs);
        cs := cs[i := c.(threads := threads.value)];
        found := FirstContext(cs, i);
      }
    }
    return Success((cs, answered, responses));
  }

  lemma {:induction false} NoPending(cs: seq<Context>)
    requires Pending(cs) == 0
    ensures FirstContext(cs, 0).None?
    ensures forall j :: 0 <= j < |cs| ==> Waiting(cs[j].threads) == 0
    decreases |cs|
  {
    if |cs| > 0 {
      NoPending(cs[1..]);
      forall j | 0 <= j < |cs| ensures Waiting(cs[j].threads) == 0 {
        if j > 0 { assert cs[j] == cs[1..][j - 1]; }
      }
    }
  }
}
