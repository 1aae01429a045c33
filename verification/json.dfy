/** JavaScript values as they occur in the status rotator's configuration and
    request bodies, with the two pieces of JavaScript semantics the rotator
    relies on: truthiness (`if (x)`) and `JSON.stringify`, which leaves out
    every object member whose value is `undefined`. */
module Json {
  import opened Options

  /** A JavaScript value. `Undefined` is what reading a missing member yields;
      arrays and floating-point numbers do not occur in the modelled paths. */
  datatype Value =
    | Undefined
    | Null
    | Bool(b: bool)
    | Num(n: int)
    | Str(s: string)
    | Obj(members: seq<Member>)

  /** One `key: value` member of an object literal, in insertion order. */
  datatype Member = Member(key: string, value: Value)

  /** JavaScript truthiness: `undefined`, `null`, `false`, `0` and `""` are falsy. */
  predicate Truthy(v: Value) {
    match v
    case Undefined => false
    case Null => false
    case Bool(b) => b
    case Num(n) => n != 0
    case Str(s) => s != ""
    case Obj(_) => true
  }

  /** The keys of a member list, in order. */
  function Keys(ms: seq<Member>): (ks: seq<string>)
    ensures |ks| == |ms|
    ensures forall i :: 0 <= i < |ms| ==> ks[i] == ms[i].key
  {
    if ms == [] then [] else [ms[0].key] + Keys(ms[1..])
  }

  /** No key occurs twice, as in every JavaScript object. */
  predicate DistinctKeys(ms: seq<Member>) {
    forall i, j :: 0 <= i < j < |ms| ==> ms[i].key != ms[j].key
  }

  /** Property access `o[key]` on a member list: the value of the first member
      with that key, or `None` when there is none. */
  function Get(ms: seq<Member>, key: string): (r: Option<Value>)
    ensures r.None? <==> key !in Keys(ms)
    ensures r.Some? ==> Member(key, r.value) in ms
    ensures forall x :: DistinctKeys(ms) && Member(key, x) in ms ==> r == Some(x)
  {
    if ms == [] then None
    else if ms[0].key == key then Some(ms[0].value)
    else Get(ms[1..], key)
  }

  /** `v[key]` when `v` is an object; any other value has no members here. */
  function Lookup(v: Value, key: string): Option<Value> {
    if v.Obj? then Get(v.members, key) else None
  }

  /** Property access `v.key` in JavaScript: `None` when it throws a
      `TypeError` (on `null` or `undefined`), `Some(Undefined)` when the member
      is missing, and the member's value otherwise. */
  function Access(v: Value, key: string): (r: Option<Value>)
    ensures r.None? <==> v.Null? || v.Undefined?
    ensures r.Some? && !r.value.Undefined? ==> v.Obj? && Member(key, r.value) in v.members
    ensures forall x :: v.Obj? && DistinctKeys(v.members) && Member(key, x) in v.members ==> r == Some(x)
    ensures v.Obj? && key !in Keys(v.members) ==> r == Some(Undefined)
    ensures !v.Obj? && !v.Null? && !v.Undefined? ==> r == Some(Undefined)
  {
    match v
    case Undefined => None
    case Null => None
    case Obj(ms) =>
      (match Get(ms, key)
       case Some(x) => Some(x)
       case None => Some(Undefined))
    case _ => Some(Undefined)
  }

  /** True when `undefined` occurs nowhere inside `v`: the shape of every value
      that `JSON.stringify` can emit. */
  predicate Serializable(v: Value) {
    match v
    case Undefined => false
    case Obj(ms) => SerializableMembers(ms)
    case _ => true
  }

  predicate SerializableMembers(ms: seq<Member>) {
    forall i :: 0 <= i < |ms| ==> Serializable(ms[i].value)
  }

  /** What `JSON.stringify` emits for a member list: members whose value is
      `undefined` are dropped, the others are kept in order with their values
      serialized in turn. */
  function WireMembers(ms: seq<Member>): (ws: seq<Member>)
    ensures SerializableMembers(ws)
    ensures |ws| <= |ms|
  {
    if ms == [] then []
    else
      var rest := WireMembers(ms[1..]);
      if ms[0].value.Undefined? then rest
      else [Member(ms[0].key, Wire(ms[0].value))] + rest
  }

  /** What `JSON.stringify` emits for a value that is not `undefined` itself. */
  function Wire(v: Value): (w: Value)
    requires !v.Undefined?
    ensures Serializable(w)
  {
    match v
    case Obj(ms) => Obj(WireMembers(ms))
    case _ => v
  }

  /** What `JSON.stringify` emits for a member whose value is `v`: nothing when
      `v` is `undefined`, the serialized value otherwise. */
  function Emitted(v: Value): (r: Option<Value>)
    ensures r.None? <==> v.Undefined?
    ensures r.Some? ==> Serializable(r.value)
  {
    if v.Undefined? then None else Some(Wire(v))
  }

  /** Serializing keeps only keys that were already there. */
  lemma {:induction false} WireMembersKeys(ms: seq<Member>, key: string)
    requires key !in Keys(ms)
    ensures key !in Keys(WireMembers(ms))
  {
    if ms != [] {
      WireMembersKeys(ms[1..], key);
    }
  }

  /** Reading a key of the serialized object gives what was emitted for that
      key's member, and nothing when the member held `undefined` or was
      missing. */
  lemma {:induction false} GetWireMembers(ms: seq<Member>, key: string)
    requires DistinctKeys(ms)
    ensures Get(WireMembers(ms), key) == match Get(ms, key) case None => None case Some(v) => Emitted(v)
  {
    if ms != [] {
      assert DistinctKeys(ms[1..]) by {
        forall i, j | 0 <= i < j < |ms[1..]| ensures ms[1..][i].key != ms[1..][j].key {
          assert ms[1..][i] == ms[i + 1] && ms[1..][j] == ms[j + 1];
        }
      }
      GetWireMembers(ms[1..], key);
      if ms[0].key == key {
        assert key !in Keys(ms[1..]) by {
          forall i | 0 <= i < |ms[1..]| ensures Keys(ms[1..])[i] != key {
            assert ms[1..][i] == ms[i + 1];
          }
        }
        WireMembersKeys(ms[1..], key);
      }
    }
  }

  /** Serializing a value that already has no `undefined` inside changes
      nothing: `JSON.stringify` is the identity on its own output's shape. */
  lemma {:induction false} WireIdentity(v: Value)
    requires Serializable(v)
    ensures Wire(v) == v
  {
    match v
    case Obj(ms) => WireMembersIdentity(ms);
    case _ =>
  }

  lemma {:induction false} WireMembersIdentity(ms: seq<Member>)
    requires SerializableMembers(ms)
    ensures WireMembers(ms) == ms
  {
    if ms != [] {
      assert SerializableMembers(ms[1..]) by {
        forall i | 0 <= i < |ms[1..]| ensures Serializable(ms[1..][i].value) {
          assert ms[1..][i] == ms[i + 1];
        }
      }
      WireMembersIdentity(ms[1..]);
      WireIdentity(ms[0].value);
      assert ms == [ms[0]] + ms[1..];
    }
  }

  /** Serializing twice is serializing once. */
  lemma WireIdempotent(v: Value)
    requires !v.Undefined?
    ensures Wire(Wire(v)) == Wire(v)
  {
    WireIdentity(Wire(v));
  }
}
