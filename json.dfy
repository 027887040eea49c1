/**
 * The parsed-JSON values the program's decision logic inspects, and the
 * (status, body) pair an HTTP GET hands back. The JSON parser itself is a
 * library outside this model: a body arrives already classified as empty,
 * unparseable or parsed.
 */
module Json {
  import opened Wrappers
  import opened Text

  /**
   * A JSON value. Numbers are integers (the program only reads integer
   * identifiers; the library's floating-point numbers are not modelled).
   * An object lists its members in the library's iteration order; keys of
   * a parsed object are unique, and lookups read the first member with
   * the key.
   */
  datatype Json =
    | JNull
    | JBool(b: bool)
    | JNum(n: int)
    | JStr(s: string)
    | JArr(elems: seq<Json>)
    | JObj(members: seq<(string, Json)>)

  /** A response body as the parser sees it: the empty string, text that does not parse, or a value. */
  datatype Body = NoBody | Unparseable | Parsed(value: Json)

  /** What one HTTP GET returns: the status code (0 when the transfer failed) and the body. */
  datatype HttpResponse = HttpResponse(status: int, body: Body)

  /** The value of the first member named `key` of an object (`j[key]` once `j.contains(key)`). */
  function Member(j: Json, key: string): (r: Option<Json>)
    ensures r.Some? <==> j.JObj? && exists i :: 0 <= i < |j.members| && j.members[i].0 == key
    ensures r.Some? ==> exists i :: 0 <= i < |j.members| && j.members[i] == (key, r.value)
  {
    if !j.JObj? then None else FirstWithKey(j.members, key)
  }

  function FirstWithKey(ms: seq<(string, Json)>, key: string): (r: Option<Json>)
    ensures r.Some? <==> exists i :: 0 <= i < |ms| && ms[i].0 == key
    ensures r.Some? ==> exists i :: 0 <= i < |ms| && ms[i] == (key, r.value)
  {
    if ms == [] then None
    else if ms[0].0 == key then Some(ms[0].1)
    else
      var r := FirstWithKey(ms[1..], key);
      assert forall i :: 1 <= i < |ms| ==> ms[i] == ms[1..][i - 1];
      r
  }

  /** `j.contains(key)`: true only of an object that has a member named `key`. */
  predicate Contains(j: Json, key: string) {
    Member(j, key).Some?
  }

  /**
   * The values a range-based `for` visits when it iterates over `j`: the
   * elements of an array, the member values of an object, nothing for null,
   * and the value itself, once, for any other primitive.
   */
  function Items(j: Json): (r: seq<Json>)
    ensures j.JArr? ==> r == j.elems
    ensures j.JObj? ==> |r| == |j.members| && forall i :: 0 <= i < |r| ==> r[i] == j.members[i].1
    ensures j.JNull? ==> r == []
    ensures !(j.JArr? || j.JObj? || j.JNull?) ==> r == [j]
  {
    match j
    case JArr(elems) => elems
    case JObj(members) => seq(|members|, i requires 0 <= i < |members| => members[i].1)
    case JNull => []
    case _ => [j]
  }

  /**
   * `get<int>()`: defined on numbers and booleans; on any other value the
   * library throws. A boolean converts to 1 or 0, and a number is cast to
   * `int`, which keeps its value when it fits and wraps it otherwise.
   */
  function AsInt(j: Json): (r: Option<int>)
    ensures r.Some? <==> j.JNum? || j.JBool?
    ensures r.Some? ==> IsInt32(r.value)
    ensures j.JBool? ==> r == Some(if j.b then 1 else 0)
    ensures j.JNum? ==> (r.value - j.n) % 0x1_0000_0000 == 0
    ensures j.JNum? && IsInt32(j.n) ==> r == Some(j.n)
  {
    match j
    case JNum(n) => Some(Wrap32(n))
    case JBool(b) => Some(if b then 1 else 0)
    case _ => None
  }

  /** `get<std::string>()`: defined on strings; on any other value the library throws. */
  function AsString(j: Json): (r: Option<string>)
    ensures r.Some? <==> j.JStr?
  {
    if j.JStr? then Some(j.s) else None
  }
}
