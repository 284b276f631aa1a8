/** JSON values as the scraper builds and inspects them through rapidjson. */
module Values {

  datatype Option<T> = None | Some(value: T) {
    /** The carried value, or `default` for None. */
    function GetOr(default: T): T {
      match this
      case Some(v) => v
      case None => default
    }
  }

  /** A JSON value. An object keeps its members in insertion order, as rapidjson does. */
  datatype Json =
    | Null
    | Bool(b: bool)
    | Int(i: int)
    | Str(s: string)
    | Arr(items: seq<Json>)
    | Obj(members: seq<Member>)

  datatype Member = Member(name: string, value: Json)

  /** The name of the member that keys a record in the collection. */
  const ServerField: string := "server"

  /** `object[name]`: rapidjson scans the members in order and takes the first one called `name`. */
  function Lookup(members: seq<Member>, name: string): Option<Json> {
    if members == [] then None
    else if members[0].name == name then Some(members[0].value)
    else Lookup(members[1..], name)
  }

  /** `Lookup` finds nothing exactly when no member has the name, and otherwise the value of the
      first member that has it. */
  lemma {:induction false} LookupFirst(members: seq<Member>, name: string)
    ensures Lookup(members, name).None? <==> forall i :: 0 <= i < |members| ==> members[i].name != name
    ensures Lookup(members, name).Some? ==>
              exists i :: 0 <= i < |members| && members[i] == Member(name, Lookup(members, name).value)
                          && forall j :: 0 <= j < i ==> members[j].name != name
  {
    if members != [] && members[0].name != name {
      LookupFirst(members[1..], name);
      assert forall i :: 1 <= i < |members| ==> members[i] == members[1..][i - 1];
      if Lookup(members, name).Some? {
        var i :| 0 <= i < |members| - 1 && members[1..][i] == Member(name, Lookup(members, name).value)
                 && forall j :: 0 <= j < i ==> members[1..][j].name != name;
        assert members[i + 1] == Member(name, Lookup(members, name).value);
      }
    }
  }

  /** `v.HasMember(name)`; rapidjson asserts that `v` is an object. */
  predicate HasMember(v: Json, name: string)
    requires v.Obj?
  {
    Lookup(v.members, name).Some?
  }

  /** What `merge` needs of a record: `HasMember("server")` and `["server"].GetString()` are defined
      only on an object whose first `server` member, if any, is a string. */
  predicate Readable(v: Json) {
    v.Obj? && (HasMember(v, ServerField) ==> Lookup(v.members, ServerField).value.Str?)
  }

  predicate AllReadable(vs: seq<Json>) {
    forall i :: 0 <= i < |vs| ==> Readable(vs[i])
  }

  /** The `std::string` that `GetString()` converts to: the characters before the first NUL,
      since the conversion reads a C string. */
  function CString(s: string): (r: string)
    ensures r <= s && '\0' !in r
    ensures |r| < |s| ==> s[|r|] == '\0'
  {
    if s == [] || s[0] == '\0' then [] else [s[0]] + CString(s[1..])
  }

  /** A string without NUL converts to itself. */
  lemma CStringWithoutNul(s: string)
    requires '\0' !in s
    ensures CString(s) == s
  {
  }

  /** The key of a record: the string held by its first `server` member, cut at its first NUL;
      None if it has no `server` member. */
  function Server(v: Json): (r: Option<string>)
    requires Readable(v)
    ensures r.Some? <==> HasMember(v, ServerField)
    ensures r.Some? ==> Lookup(v.members, ServerField).value.Str? &&
                        r.value == CString(Lookup(v.members, ServerField).value.s)
  {
    match Lookup(v.members, ServerField)
    case None => None
    case Some(s) => Some(CString(s.s))
  }

  /** The key of a record without `Lookup`: `Server(v) == Some(k)` exactly when some member is
      the first one named `server`, holds a string, and that string cut at its first NUL is k. */
  lemma ServerKey(v: Json, k: string)
    requires Readable(v)
    ensures Server(v) == Some(k) <==>
              exists i :: 0 <= i < |v.members| && v.members[i].name == ServerField &&
                          v.members[i].value.Str? && CString(v.members[i].value.s) == k &&
                          forall j :: 0 <= j < i ==> v.members[j].name != ServerField
  {
    var ms := v.members;
    LookupFirst(ms, ServerField);
    if i :| 0 <= i < |ms| && ms[i].name == ServerField && ms[i].value.Str? && CString(ms[i].value.s) == k &&
            forall j :: 0 <= j < i ==> ms[j].name != ServerField {
      var i' :| 0 <= i' < |ms| && ms[i'] == Member(ServerField, Lookup(ms, ServerField).value)
                && forall j :: 0 <= j < i' ==> ms[j].name != ServerField;
      assert i' == i;
    }
  }
}
