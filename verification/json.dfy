/** The JSON values the controller handles (boost::json::value), as a tree.
    Parsing and serialising text are not modelled: where the controller
    parses or serialises, the model takes the outcome as a parameter. */
module Json {
  import opened Wrappers

  /** An object keeps its members in insertion order. A double carries the
      text `std::to_string` writes for it. */
  datatype Value =
    | Null
    | Bool(b: bool)
    | Int64(i: int)
    | Uint64(u: nat)
    | Double(fixed: string)
    | Str(s: string)
    | Array(items: seq<Value>)
    | Object(members: seq<(string, Value)>)

  function MemberKeys(ms: seq<(string, Value)>): (ks: seq<string>)
    ensures |ks| == |ms| && forall i :: 0 <= i < |ms| ==> ks[i] == ms[i].0
  {
    seq(|ms|, i requires 0 <= i < |ms| => ms[i].0)
  }

  /** Member lookup: the value of the first member with this key. */
  function Get(ms: seq<(string, Value)>, key: string): (r: Option<Value>)
    ensures r.Some? ==> (key, r.value) in ms
    ensures |ms| > 0 && ms[0].0 == key ==> r == Some(ms[0].1)
  {
    if |ms| == 0 then None
    else if ms[0].0 == key then Some(ms[0].1)
    else Get(ms[1..], key)
  }

  /** A lookup succeeds exactly when some member has the key. */
  lemma {:induction false} GetFound(ms: seq<(string, Value)>, key: string)
    ensures Get(ms, key).Some? <==> key in MemberKeys(ms)
    decreases |ms|
  {
    if |ms| > 0 {
      assert MemberKeys(ms) == [ms[0].0] + MemberKeys(ms[1..]);
      GetFound(ms[1..], key);
    }
  }
}
