/** The JavaScript values a request body, a socket payload or a parsed JSON
    text can hold, with JavaScript's truthiness, property access and the text
    a value becomes inside a template literal. */
module JsValues {
  import opened Text
  import opened Wrappers

  /** Numbers other than integers are not modelled. */
  datatype JsValue =
    | Undefined
    | Null
    | Bool(b: bool)
    | Num(n: int)
    | Str(s: string)
    | Arr(items: seq<JsValue>)
    | Obj(props: map<string, JsValue>)

  /** Status and `message` of a controller's JSON answer. */
  datatype Reply = Reply(status: nat, message: string)

  /** The outcome of evaluating JavaScript that may throw a TypeError. */
  datatype Attempt<T> = Done(value: T) | Threw

  /** An array of strings. */
  function Strs(xs: seq<string>): (r: JsValue)
    ensures r.Arr? && |r.items| == |xs|
    ensures forall i :: 0 <= i < |xs| ==> r.items[i] == Str(xs[i])
  {
    Arr(seq(|xs|, i requires 0 <= i < |xs| => Str(xs[i])))
  }

  /** `!!v`. */
  predicate Truthy(v: JsValue) {
    match v
    case Undefined => false
    case Null => false
    case Bool(b) => b
    case Num(n) => n != 0
    case Str(s) => s != ""
    case Arr(_) => true
    case Obj(_) => true
  }

  /** `null` and `undefined`, the values `?.` stops at. */
  predicate Nullish(v: JsValue) {
    v.Undefined? || v.Null?
  }

  /** The `length` of a JavaScript string: its UTF-16 code units, one for
      a character of the Basic Multilingual Plane and two (a surrogate
      pair) for any other. */
  function Utf16Length(s: string): (n: nat)
    ensures |s| <= n <= 2 * |s|
  {
    if s == [] then 0 else (if s[0] < '\U{10000}' then 1 else 2) + Utf16Length(s[1..])
  }

  /** A string of Basic Multilingual Plane characters has one code unit
      per character. */
  lemma {:induction false} Utf16LengthOfBmp(s: string)
    requires forall i :: 0 <= i < |s| ==> s[i] < '\U{10000}'
    ensures Utf16Length(s) == |s|
  {
    if s != [] {
      assert forall i :: 0 <= i < |s[1..]| ==> s[1..][i] == s[i + 1];
      Utf16LengthOfBmp(s[1..]);
    }
  }

  /** One character is one code unit inside the Basic Multilingual Plane
      and a surrogate pair, two units, outside it. */
  lemma Utf16LengthSingle(c: char)
    ensures Utf16Length([c]) == if c < '\U{10000}' then 1 else 2
  {
    assert [c][1..] == [];
  }

  /** Code units add up over concatenation. */
  lemma {:induction false} Utf16LengthConcat(a: string, b: string)
    ensures Utf16Length(a + b) == Utf16Length(a) + Utf16Length(b)
  {
    if a != [] {
      assert (a + b)[1..] == a[1..] + b;
      Utf16LengthConcat(a[1..], b);
    } else {
      assert a + b == b;
    }
  }

  /** `v[key]` for the property names the modelled code reads; `None` is the
      TypeError thrown when `v` is `null` or `undefined`. Properties inherited
      from `Object.prototype` are not modelled. */
  function Get(v: JsValue, key: string): (r: Option<JsValue>)
    ensures r.None? <==> Nullish(v)
  {
    match v
    case Undefined => None
    case Null => None
    case Str(s) => Some(if key == "length" then Num(Utf16Length(s)) else Undefined)
    case Arr(xs) => Some(if key == "length" then Num(|xs|) else Undefined)
    case Obj(m) => Some(if key in m then m[key] else Undefined)
    case _ => Some(Undefined)
  }

  /** `v?.[key]`. */
  function OptGet(v: JsValue, key: string): JsValue {
    if Nullish(v) then Undefined else Get(v, key).value
  }

  /** `a || b`. */
  function Or(a: JsValue, b: JsValue): (r: JsValue)
    ensures Truthy(r) <==> Truthy(a) || Truthy(b)
  {
    if Truthy(a) then a else b
  }

  function IntStr(n: int): string {
    if n < 0 then "-" + NatStr(-n) else NatStr(n)
  }

  /** `${v}`: what a value becomes inside a template literal. An array joins
      its elements with ",", rendering `null` and `undefined` as "". */
  function ToText(v: JsValue): string
    decreases v
  {
    match v
    case Undefined => "undefined"
    case Null => "null"
    case Bool(b) => if b then "true" else "false"
    case Num(n) => IntStr(n)
    case Str(s) => s
    case Arr(xs) => JoinValues(xs, ",")
    case Obj(_) => "[object Object]"
  }

  /** `xs.join(sep)`: the elements' texts between separators, with `null`
      and `undefined` rendered as "". */
  function JoinValues(xs: seq<JsValue>, sep: string): string
    decreases xs
  {
    Join(seq(|xs|, i requires 0 <= i < |xs| => if Nullish(xs[i]) then "" else ToText(xs[i])), sep)
  }

  /** A project as the profile stores it: `{ name, gitHubUrl }`. */
  function Project(name: JsValue, gitHubUrl: JsValue): JsValue {
    Obj(map["name" := name, "gitHubUrl" := gitHubUrl])
  }

  lemma ProjectFields(name: JsValue, url: JsValue)
    ensures Project(name, url).Obj?
    ensures OptGet(Project(name, url), "name") == name
    ensures OptGet(Project(name, url), "gitHubUrl") == url
  {
  }
}
