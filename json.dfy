/** The untyped document the hook works on: a JSON tree as `JSON.parse` builds it,
    plus JavaScript's `undefined`, and the failure outcomes of one locale's run. */
module JsonValue {

  datatype Option<T> = None | Some(value: T)

  /** Why a locale's run stops (the source throws; the locale's output is skipped). */
  datatype Failure =
    | EvalFailed(expr: string)           // the expression evaluator threw
    | UnsupportedSpinner(definition: Json) // the spintax library was handed a non-string
    | NotAnArray(key: string)            // `.filter` called on a non-array while serialising

  datatype Result<T> = Ok(value: T) | Err(error: Failure) {
    predicate IsFailure() { Err? }
    function PropagateFailure<U>(): Result<U> requires Err? { Err(error) }
    function Extract(): T requires Ok? { value }
  }

  datatype Json =
    | JObj(members: seq<Member>)
    | JArr(items: seq<Json>)
    | JStr(str: string)
    | JNum(num: int)
    | JBool(flag: bool)
    | JNull
    | JUndefined

  /** One own property of an object, in the object's iteration order. */
  datatype Member = Member(name: string, value: Json)

  /** The key under which the walker hands a child to a processor:
      a property name, or an array index. */
  datatype Key = Name(name: string) | Index(index: nat)

  /** `typeof v === "object" && v !== null` */
  predicate IsContainer(v: Json) {
    v.JObj? || v.JArr?
  }

  function Max(a: nat, b: nat): nat { if a < b then b else a }

  /** Nesting depth: scalars 0, a container one more than its deepest child. */
  function Depth(j: Json): nat
    decreases j, 1
  {
    match j
    case JObj(ms) => 1 + MembersDepth(ms)
    case JArr(xs) => 1 + ItemsDepth(xs)
    case _ => 0
  }

  function MembersDepth(ms: seq<Member>): nat
    decreases ms, 0
  {
    if ms == [] then 0 else Max(Depth(ms[0].value), MembersDepth(ms[1..]))
  }

  function ItemsDepth(xs: seq<Json>): nat
    decreases xs, 0
  {
    if xs == [] then 0 else Max(Depth(xs[0]), ItemsDepth(xs[1..]))
  }

  lemma {:induction false} MemberDepthBound(ms: seq<Member>, i: nat)
    requires i < |ms|
    ensures Depth(ms[i].value) <= MembersDepth(ms)
    decreases i
  {
    if i > 0 {
      MemberDepthBound(ms[1..], i - 1);
      assert ms[1..][i - 1] == ms[i];
    }
  }

  lemma {:induction false} ItemDepthBound(xs: seq<Json>, i: nat)
    requires i < |xs|
    ensures Depth(xs[i]) <= ItemsDepth(xs)
    decreases i
  {
    if i > 0 {
      ItemDepthBound(xs[1..], i - 1);
      assert xs[1..][i - 1] == xs[i];
    }
  }

  lemma {:induction false} MembersDepthSuffix(ms: seq<Member>, i: nat)
    requires i <= |ms|
    ensures MembersDepth(ms[i..]) <= MembersDepth(ms)
    decreases i
  {
    if i > 0 {
      MembersDepthSuffix(ms[1..], i - 1);
      assert ms[1..][i - 1..] == ms[i..];
    }
  }

  lemma {:induction false} ItemsDepthSuffix(xs: seq<Json>, i: nat)
    requires i <= |xs|
    ensures ItemsDepth(xs[i..]) <= ItemsDepth(xs)
    decreases i
  {
    if i > 0 {
      ItemsDepthSuffix(xs[1..], i - 1);
      assert xs[1..][i - 1..] == xs[i..];
    }
  }

  /** A sequence drawn from the elements of another is no deeper than it. */
  lemma {:induction false} ItemsDepthOfSubset(ys: seq<Json>, xs: seq<Json>)
    requires forall y :: y in ys ==> y in xs
    ensures ItemsDepth(ys) <= ItemsDepth(xs)
    decreases |ys|
  {
    if ys != [] {
      assert ys[0] in ys;
      var i :| 0 <= i < |xs| && xs[i] == ys[0];
      ItemDepthBound(xs, i);
      ItemsDepthOfSubset(ys[1..], xs);
    }
  }

  function DigitChar(d: nat): char
    requires d < 10
  {
    "0123456789"[d]
  }

  function NatToString(n: nat): (r: string)
    ensures |r| > 0
    ensures forall i :: 0 <= i < |r| ==> '0' <= r[i] <= '9'
    decreases n
  {
    if n < 10 then [DigitChar(n)] else NatToString(n / 10) + [DigitChar(n % 10)]
  }

  /** Decimal text of an integer, as `Number.prototype.toString` gives it. */
  function IntToString(i: int): (r: string)
    ensures |r| > 0
  {
    if i < 0 then "-" + NatToString(-i) else NatToString(i)
  }

  /** `String(v)`: the text JavaScript's default conversion gives a value.
      Arrays join their elements with "," (null and undefined elements give ""),
      every object gives "[object Object]". */
  function JsString(v: Json): string
    decreases v, 1
  {
    match v
    case JStr(s) => s
    case JNum(n) => IntToString(n)
    case JBool(b) => if b then "true" else "false"
    case JNull => "null"
    case JUndefined => "undefined"
    case JObj(_) => "[object Object]"
    case JArr(xs) => JoinItems(xs)
  }

  function JoinItems(xs: seq<Json>): string
    decreases xs, 0
  {
    if xs == [] then ""
    else
      var head := if xs[0].JNull? || xs[0].JUndefined? then "" else JsString(xs[0]);
      if |xs| == 1 then head else head + "," + JoinItems(xs[1..])
  }
}
