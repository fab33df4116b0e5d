/** A parsed JSON value, as `JSON.parse` hands it to the program, and the
    two JavaScript notions the program applies to such values: truthiness
    and the `npm pkg get` wrapper decode. */
module Json {

  /** A JSON value. An object keeps its members in source order; when a key
      repeats, `JSON.parse` keeps the last value. */
  datatype Value =
    | Null
    | Bool(b: bool)
    | Num(n: real)
    | Str(s: string)
    | Arr(items: seq<Value>)
    | Obj(members: seq<(string, Value)>)

  /** JavaScript truthiness: `null`, `false`, `0` and `""` are falsy; every
      array and every object, even an empty one, is truthy. */
  predicate Truthy(v: Value) {
    match v
    case Null => false
    case Bool(b) => b
    case Num(n) => n != 0.0
    case Str(s) => s != ""
    case Arr(_) => true
    case Obj(_) => true
  }

  /** Truthiness by kind of value: containers are always truthy, even
      empty ones, while a scalar is truthy exactly when it is not the falsy
      value of its kind. */
  lemma TruthyByKind(v: Value)
    ensures (v.Arr? || v.Obj?) ==> Truthy(v)
    ensures v.Str? ==> (Truthy(v) <==> |v.s| > 0)
    ensures v.Num? ==> (Truthy(v) <==> v.n != 0.0)
    ensures v.Bool? ==> (Truthy(v) <==> v.b)
    ensures v.Null? ==> !Truthy(v)
    ensures Truthy(Obj([])) && Truthy(Arr([])) && !Truthy(Str("")) && !Truthy(Num(0.0))
  {
  }

  /** `key in parsed` for an object. */
  predicate HasMember(members: seq<(string, Value)>, key: string) {
    exists i :: 0 <= i < |members| && members[i].0 == key
  }

  /** `parsed[key]`: the value of the last member named `key`. */
  function Member(members: seq<(string, Value)>, key: string): (v: Value)
    requires HasMember(members, key)
    ensures exists i :: 0 <= i < |members| && members[i] == (key, v)
                        && forall j :: i < j < |members| ==> members[j].0 != key
    decreases |members|
  {
    var last := members[|members| - 1];
    if last.0 == key then last.1
    else
      assert HasMember(members[..|members| - 1], key) by {
        var i :| 0 <= i < |members| && members[i].0 == key;
        assert members[..|members| - 1][i].0 == key;
      }
      Member(members[..|members| - 1], key)
  }

  /** The decode `npm pkg get <key> --json` output goes through: newer npm
      wraps the value in an object keyed by the requested field, older npm
      prints the bare value. The field is taken from an object that has it;
      anything else, an object without the field included, is returned as
      it is. */
  function PkgGetDecode(key: string, parsed: Value): (r: Value)
    ensures parsed.Obj? && HasMember(parsed.members, key) ==>
              exists i :: 0 <= i < |parsed.members| && parsed.members[i] == (key, r)
                          && forall j :: i < j < |parsed.members| ==> parsed.members[j].0 != key
    ensures !(parsed.Obj? && HasMember(parsed.members, key)) ==> r == parsed
  {
    if parsed.Obj? && HasMember(parsed.members, key) then Member(parsed.members, key)
    else parsed
  }

  /** Both output shapes decode to the same value: the bare value and the
      value wrapped under its own key. */
  lemma PkgGetShapesAgree(key: string, v: Value)
    requires !(v.Obj? && HasMember(v.members, key))
    ensures PkgGetDecode(key, Obj([(key, v)])) == v
    ensures PkgGetDecode(key, v) == v
  {
    assert Obj([(key, v)]).members[0].0 == key;
  }

  /** An object without the requested field (npm prints `{}` for a field
      that is not set) comes back unchanged, and it is truthy. */
  lemma PkgGetEmptyWrapperIsTruthy(key: string)
    ensures PkgGetDecode(key, Obj([])) == Obj([])
    ensures Truthy(PkgGetDecode(key, Obj([])))
  {
  }
}
