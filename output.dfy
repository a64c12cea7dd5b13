/** Writing a locale's model: `JSON.stringify` with the hook's replacer. Under the keys
    `phrases`, `values` and `synonyms` the replacer keeps the non-empty entries
    (`valueIsNotEmpty`), then the first occurrence of each (`valueIsUnique`), then sorts
    them with the default `Array.prototype.sort`; every other value passes unchanged.
    The serialiser then descends into whatever the replacer returned. */
module Output {
  import opened JsonValue
  import opened Text
  import opened Walker

  /** The keys whose arrays are cleaned on output. */
  const ListKeys: set<string> := {"phrases", "values", "synonyms"}

  predicate IsListKey(k: string) {
    k in ListKeys
  }

  // ---------------------------------------------------------------------------
  // valueIsNotEmpty

  /** Neither `undefined` nor `null`, and `String(v).trim()` is not empty. */
  predicate IsNotEmpty(v: Json) {
    !v.JUndefined? && !v.JNull? && |Trim(JsString(v))| > 0
  }

  /** `.filter(valueIsNotEmpty)` */
  function KeepNonEmpty(xs: seq<Json>): (r: seq<Json>)
    ensures forall y :: y in r <==> y in xs && IsNotEmpty(y)
    ensures multiset(r) <= multiset(xs)
    ensures forall y :: multiset(r)[y] == if IsNotEmpty(y) then multiset(xs)[y] else 0
  {
    if xs == [] then []
    else
      assert xs == [xs[0]] + xs[1..];
      (if IsNotEmpty(xs[0]) then [xs[0]] else []) + KeepNonEmpty(xs[1..])
  }

  // ---------------------------------------------------------------------------
  // valueIsUnique

  /** No primitive value occurs at two positions. */
  predicate UniquePrimitives(xs: seq<Json>) {
    forall i, j :: 0 <= i < j < |xs| && xs[i] == xs[j] ==> IsContainer(xs[i])
  }

  /** `self.indexOf(self[i]) === i`. `indexOf` compares with `===`: primitives by value,
      objects and arrays by reference. Containers are values here, taken to be distinct
      objects, so a container is always at its own first position. (One array placed
      twice by whole-match placeholders is one object in the source; that is not
      captured.) */
  predicate IsFirst(self: seq<Json>, i: nat)
    requires i < |self|
  {
    IsContainer(self[i]) || self[i] !in self[..i]
  }

  /** `.filter(valueIsUnique)` applied to the positions `from..` of `self`. */
  function KeepUniqueFrom(self: seq<Json>, from: nat): (r: seq<Json>)
    requires from <= |self|
    ensures multiset(r) <= multiset(self[from..])
    ensures forall y :: y in r ==> IsContainer(y) || y !in self[..from]
    ensures UniquePrimitives(r)
    ensures forall y :: IsContainer(y) ==> multiset(r)[y] == multiset(self[from..])[y]
    decreases |self| - from
  {
    if from == |self| then []
    else
      var rest := KeepUniqueFrom(self, from + 1);
      assert self[from..] == [self[from]] + self[from + 1..];
      assert self[..from + 1] == self[..from] + [self[from]];
      if IsFirst(self, from) then
        ConsUnique(self[from], rest);
        [self[from]] + rest
      else rest
  }

  function KeepUnique(self: seq<Json>): seq<Json> {
    KeepUniqueFrom(self, 0)
  }

  lemma ConsUnique(h: Json, rest: seq<Json>)
    requires UniquePrimitives(rest)
    requires IsContainer(h) || h !in rest
    ensures UniquePrimitives([h] + rest)
  {
    var r := [h] + rest;
    forall i, j | 0 <= i < j < |r| && r[i] == r[j]
      ensures IsContainer(r[i])
    {
      if i == 0 {
        assert r[j] == rest[j - 1];
      } else {
        assert r[i] == rest[i - 1] && r[j] == rest[j - 1];
      }
    }
  }

  lemma {:induction false} KeepUniqueFromKeeps(self: seq<Json>, from: nat, i: nat)
    requires from <= i < |self| && IsFirst(self, i)
    ensures self[i] in KeepUniqueFrom(self, from)
    decreases i - from
  {
    if from < i {
      KeepUniqueFromKeeps(self, from + 1, i);
    }
  }

  lemma {:induction false} FirstPosition(self: seq<Json>, x: Json)
    requires x in self
    ensures exists i :: 0 <= i < |self| && self[i] == x && x !in self[..i]
  {
    if self[0] == x {
      assert self[..0] == [];
    } else {
      FirstPosition(self[1..], x);
      var i :| 0 <= i < |self[1..]| && self[1..][i] == x && x !in self[1..][..i];
      assert self[..i + 1] == [self[0]] + self[1..][..i];
      assert self[i + 1] == x;
    }
  }

  /** Deduplication drops repeats only: every value of the input survives. */
  lemma KeepUniqueMembers(self: seq<Json>, x: Json)
    ensures x in KeepUnique(self) <==> x in self
  {
    assert self[0..] == self;
    if x in self {
      FirstPosition(self, x);
      var i :| 0 <= i < |self| && self[i] == x && x !in self[..i];
      KeepUniqueFromKeeps(self, 0, i);
    } else {
      assert multiset(self)[x] == 0;
    }
  }

  // ---------------------------------------------------------------------------
  // The default sort: ascending by `String(x)`, stable.

  predicate TextLe(a: Json, b: Json) {
    LexLe(JsString(a), JsString(b))
  }

  predicate SortedByText(xs: seq<Json>) {
    forall i, j :: 0 <= i < j < |xs| ==> TextLe(xs[i], xs[j])
  }

  /** Place `x` after the leading elements that do not sort after it. */
  function Insert(x: Json, ys: seq<Json>): (r: seq<Json>)
    ensures multiset(r) == multiset(ys) + multiset{x}
  {
    if ys == [] then [x]
    else if TextLe(ys[0], x) then
      assert ys == [ys[0]] + ys[1..];
      [ys[0]] + Insert(x, ys[1..])
    else [x] + ys
  }

  /** Insertion sort, each later element placed after the earlier ones it ties with. */
  function SortByText(xs: seq<Json>): (r: seq<Json>)
    ensures multiset(r) == multiset(xs)
    decreases |xs|
  {
    if xs == [] then []
    else
      assert xs == xs[..|xs| - 1] + [xs[|xs| - 1]];
      Insert(xs[|xs| - 1], SortByText(xs[..|xs| - 1]))
  }

  /** A sorted list stays sorted with a first element that sorts before all of it. */
  lemma ConsSorted(h: Json, rest: seq<Json>)
    requires SortedByText(rest)
    requires forall y :: y in rest ==> TextLe(h, y)
    ensures SortedByText([h] + rest)
  {
    var r := [h] + rest;
    forall i, j | 0 <= i < j < |r|
      ensures TextLe(r[i], r[j])
    {
      if i == 0 {
        assert r[j] == rest[j - 1] && rest[j - 1] in rest;
      } else {
        assert r[i] == rest[i - 1] && r[j] == rest[j - 1];
      }
    }
  }

  /** Every element of a sorted list sorts after its first one. */
  lemma SortedHeadFirst(ys: seq<Json>, y: Json)
    requires SortedByText(ys) && ys != [] && y in ys[1..]
    ensures TextLe(ys[0], y)
  {
    var k :| 0 <= k < |ys[1..]| && ys[1..][k] == y;
    assert ys[k + 1] == y;
  }

  /** What is inserted behind the first element sorts after it. */
  lemma InsertBehindHead(x: Json, ys: seq<Json>)
    requires SortedByText(ys) && ys != [] && TextLe(ys[0], x)
    ensures forall y :: y in Insert(x, ys[1..]) ==> TextLe(ys[0], y)
  {
    var rest := Insert(x, ys[1..]);
    forall y | y in rest
      ensures TextLe(ys[0], y)
    {
      assert multiset(rest)[y] > 0;
      if y != x {
        assert y in multiset(ys[1..]);
        SortedHeadFirst(ys, y);
      }
    }
  }

  /** An element that sorts before the first of a sorted list sorts before all of it. */
  lemma InsertInFront(x: Json, ys: seq<Json>)
    requires SortedByText(ys) && ys != [] && !TextLe(ys[0], x)
    ensures SortedByText([x] + ys)
  {
    LexLeTotal(JsString(ys[0]), JsString(x));
    forall y | y in ys
      ensures TextLe(x, y)
    {
      if y != ys[0] {
        assert y in ys[1..] by {
          assert ys == [ys[0]] + ys[1..];
        }
        SortedHeadFirst(ys, y);
        LexLeTransitive(JsString(x), JsString(ys[0]), JsString(y));
      }
    }
    ConsSorted(x, ys);
  }

  lemma SortedTail(ys: seq<Json>)
    requires SortedByText(ys) && ys != []
    ensures SortedByText(ys[1..])
  {
    forall i, j | 0 <= i < j < |ys[1..]|
      ensures TextLe(ys[1..][i], ys[1..][j])
    {
      assert ys[1..][i] == ys[i + 1] && ys[1..][j] == ys[j + 1];
    }
  }

  lemma {:induction false} InsertSorted(x: Json, ys: seq<Json>)
    requires SortedByText(ys)
    ensures SortedByText(Insert(x, ys))
    decreases |ys|
  {
    if ys == [] {
    } else if TextLe(ys[0], x) {
      SortedTail(ys);
      InsertSorted(x, ys[1..]);
      InsertBehindHead(x, ys);
      ConsSorted(ys[0], Insert(x, ys[1..]));
    } else {
      InsertInFront(x, ys);
    }
  }

  /** The sort's result is ascending. */
  lemma {:induction false} SortSorted(xs: seq<Json>)
    ensures SortedByText(SortByText(xs))
    decreases |xs|
  {
    if xs != [] {
      SortSorted(xs[..|xs| - 1]);
      InsertSorted(xs[|xs| - 1], SortByText(xs[..|xs| - 1]));
    }
  }

  lemma UniqueTail(ys: seq<Json>)
    requires UniquePrimitives(ys) && ys != []
    ensures UniquePrimitives(ys[1..])
    ensures IsContainer(ys[0]) || ys[0] !in ys[1..]
  {
    forall i, j | 0 <= i < j < |ys[1..]| && ys[1..][i] == ys[1..][j]
      ensures IsContainer(ys[1..][i])
    {
      assert ys[1..][i] == ys[i + 1] && ys[1..][j] == ys[j + 1];
    }
    if !IsContainer(ys[0]) {
      forall k | 0 <= k < |ys[1..]|
        ensures ys[1..][k] != ys[0]
      {
        assert ys[1..][k] == ys[k + 1];
      }
    }
  }

  lemma {:induction false} InsertUnique(x: Json, ys: seq<Json>)
    requires UniquePrimitives(ys)
    requires IsContainer(x) || x !in ys
    ensures UniquePrimitives(Insert(x, ys))
    decreases |ys|
  {
    if ys == [] {
    } else if TextLe(ys[0], x) {
      var rest := Insert(x, ys[1..]);
      assert ys == [ys[0]] + ys[1..];
      UniqueTail(ys);
      InsertUnique(x, ys[1..]);
      if !IsContainer(ys[0]) {
        assert multiset(rest)[ys[0]] == 0;
      }
      ConsUnique(ys[0], rest);
    } else {
      ConsUnique(x, ys);
    }
  }

  /** Sorting never brings two equal primitives together that were not there before. */
  lemma {:induction false} SortUnique(xs: seq<Json>)
    requires UniquePrimitives(xs)
    ensures UniquePrimitives(SortByText(xs))
    decreases |xs|
  {
    if xs != [] {
      var init := xs[..|xs| - 1];
      var last := xs[|xs| - 1];
      assert UniquePrimitives(init) by {
        forall i, j | 0 <= i < j < |init| && init[i] == init[j]
          ensures IsContainer(init[i])
        {
          assert init[i] == xs[i] && init[j] == xs[j];
        }
      }
      SortUnique(init);
      var sorted := SortByText(init);
      if !IsContainer(last) {
        assert last !in init by {
          forall k | 0 <= k < |init|
            ensures init[k] != last
          {
            assert init[k] == xs[k];
          }
        }
        assert multiset(sorted)[last] == 0;
      }
      InsertUnique(last, sorted);
    }
  }

  // ---------------------------------------------------------------------------
  // The replacer.

  /** `value.filter(valueIsNotEmpty).filter(valueIsUnique).sort()` */
  function CleanList(xs: seq<Json>): seq<Json> {
    SortByText(KeepUnique(KeepNonEmpty(xs)))
  }

  /** What the replacer promises of a cleaned list. */
  predicate IsClean(xs: seq<Json>) {
    && SortedByText(xs)
    && UniquePrimitives(xs)
    && (forall y :: y in xs ==> IsNotEmpty(y))
  }

  predicate IsCleanArray(v: Json) {
    v.JArr? && IsClean(v.items)
  }

  /** A cleaned list is sorted, holds no blank entry and no primitive twice, and holds
      exactly the non-blank values of the input, each no more often than there. */
  lemma CleanListSpec(xs: seq<Json>)
    ensures IsClean(CleanList(xs))
    ensures forall y :: y in CleanList(xs) <==> y in xs && IsNotEmpty(y)
    ensures multiset(CleanList(xs)) <= multiset(xs)
    ensures forall y :: IsContainer(y) && IsNotEmpty(y) ==> multiset(CleanList(xs))[y] == multiset(xs)[y]
  {
    var a := KeepNonEmpty(xs);
    var b := KeepUnique(a);
    var r := SortByText(b);
    SortSorted(b);
    SortUnique(b);
    assert a[0..] == a;
    forall y
      ensures y in r <==> y in xs && IsNotEmpty(y)
    {
      KeepUniqueMembers(a, y);
      assert y in r <==> multiset(r)[y] > 0;
      assert y in b <==> multiset(b)[y] > 0;
    }
  }

  /** The replacer: under a list key the value must be an array (`.filter` on anything
      else throws); every other value is returned as it is. */
  function Sanitize(key: Key, value: Json): (r: Result<Json>)
    ensures r.Ok? ==> Depth(r.value) <= Depth(value)
  {
    if key.Name? && IsListKey(key.name) then
      if value.JArr? then
        var cleaned := CleanList(value.items);
        CleanListSpec(value.items);
        ItemsDepthOfSubset(cleaned, value.items);
        Ok(JArr(cleaned))
      else Err(NotAnArray(key.name))
    else Ok(value)
  }

  // ---------------------------------------------------------------------------
  // The serialiser's walk around the replacer.

  /** An array slot whose value serialises to `undefined` is written as `null`. */
  function Emitted(v: Json): Json {
    if v.JUndefined? then JNull else v
  }

  /** The value `JSON.stringify` writes for `value` found under `key`: the replacer's
      result, with its members and items serialised in turn. */
  function Stringify(key: Key, value: Json): Result<Json>
    decreases Depth(value), 1
  {
    var w :- Sanitize(key, value);
    match w
    case JObj(ms) =>
      var ms' :- StringifyMembers(ms, Depth(value));
      Ok(JObj(ms'))
    case JArr(xs) =>
      var xs' :- StringifyItems(xs, 0, Depth(value));
      Ok(JArr(xs'))
    case _ => Ok(w)
  }

  /** An object's members in order; a member whose value serialises to `undefined` is omitted. */
  function StringifyMembers(ms: seq<Member>, bound: nat): Result<seq<Member>>
    requires MembersDepth(ms) < bound
    decreases bound, 0, |ms|
  {
    if ms == [] then Ok([])
    else
      MemberDepthBound(ms, 0);
      MembersDepthSuffix(ms, 1);
      var v :- Stringify(Name(ms[0].name), ms[0].value);
      var rest :- StringifyMembers(ms[1..], bound);
      Ok(if v.JUndefined? then rest else [Member(ms[0].name, v)] + rest)
  }

  /** An array's items in order, each under its index. */
  function StringifyItems(xs: seq<Json>, at: nat, bound: nat): Result<seq<Json>>
    requires ItemsDepth(xs) < bound
    decreases bound, 0, |xs|
  {
    if xs == [] then Ok([])
    else
      ItemDepthBound(xs, 0);
      ItemsDepthSuffix(xs, 1);
      var v :- Stringify(Index(at), xs[0]);
      var rest :- StringifyItems(xs[1..], at + 1, bound);
      Ok([Emitted(v)] + rest)
  }

  /** `JSON.stringify(model, replacer)`: the root is handed to the replacer under the key "". */
  function Serialize(model: Json): Result<Json> {
    Stringify(Name(""), model)
  }

  // ---------------------------------------------------------------------------
  // Serialising an element of a list changes neither its kind nor its text.

  /** `y` is what `x` becomes inside an array: a primitive other than `undefined` stays
      as it is, a container stays a container of the same kind with the same `String()`. */
  predicate SameAsItem(x: Json, y: Json) {
    && (!IsContainer(x) && !x.JUndefined? ==> y == x)
    && (x.JUndefined? ==> y == JNull)
    && (x.JObj? ==> y.JObj?)
    && (x.JArr? ==> y.JArr?)
    && (IsContainer(x) ==> JsString(y) == JsString(x))
  }

  lemma {:induction false} StringifyItemKind(at: nat, x: Json)
    requires Stringify(Index(at), x).Ok?
    ensures SameAsItem(x, Emitted(Stringify(Index(at), x).value))
    decreases Depth(x), 1
  {
    if x.JArr? {
      StringifyItemsText(x.items, 0, Depth(x));
    }
  }

  lemma {:induction false} StringifyItemsText(xs: seq<Json>, at: nat, bound: nat)
    requires ItemsDepth(xs) < bound
    requires StringifyItems(xs, at, bound).Ok?
    ensures |StringifyItems(xs, at, bound).value| == |xs|
    ensures forall i :: 0 <= i < |xs| ==> SameAsItem(xs[i], StringifyItems(xs, at, bound).value[i])
    ensures JoinItems(StringifyItems(xs, at, bound).value) == JoinItems(xs)
    decreases bound, 0, |xs|
  {
    if xs != [] {
      ItemDepthBound(xs, 0);
      ItemsDepthSuffix(xs, 1);
      StringifyItemKind(at, xs[0]);
      StringifyItemsText(xs[1..], at + 1, bound);
      var v := Emitted(Stringify(Index(at), xs[0]).value);
      var rest := StringifyItems(xs[1..], at + 1, bound).value;
      var r := StringifyItems(xs, at, bound).value;
      assert r == [v] + rest;
      assert r[1..] == rest;
      forall i | 0 <= i < |xs|
        ensures SameAsItem(xs[i], r[i])
      {
        if i > 0 {
          assert xs[i] == xs[1..][i - 1] && r[i] == rest[i - 1];
        }
      }
    }
  }

  /** A clean list stays clean once its elements are serialised. */
  lemma CleanSurvives(xs: seq<Json>, ys: seq<Json>)
    requires IsClean(xs) && |ys| == |xs|
    requires forall i :: 0 <= i < |xs| ==> SameAsItem(xs[i], ys[i])
    ensures IsClean(ys)
  {
    forall i | 0 <= i < |xs|
      ensures JsString(ys[i]) == JsString(xs[i]) && IsNotEmpty(xs[i])
    {
      assert xs[i] in xs;
    }
    forall i, j | 0 <= i < j < |ys|
      ensures TextLe(ys[i], ys[j])
    {
      assert TextLe(xs[i], xs[j]);
    }
    forall y | y in ys
      ensures IsNotEmpty(y)
    {
      var i :| 0 <= i < |ys| && ys[i] == y;
      assert xs[i] in xs;
    }
    forall i, j | 0 <= i < j < |ys| && !IsContainer(ys[i])
      ensures ys[i] != ys[j]
    {
      assert xs[i] in xs && xs[j] in xs;
    }
  }

  // ---------------------------------------------------------------------------
  // What the written model guarantees.

  /** In the written model every `phrases`, `values` and `synonyms` member, at any depth,
      is a clean array; so is the value itself when it sits under one of those keys. */
  lemma {:induction false} StringifyClean(key: Key, value: Json)
    ensures Stringify(key, value).Ok? ==>
      && NamedSatisfy(Stringify(key, value).value, ListKeys, IsCleanArray)
      && (key.Name? && IsListKey(key.name) ==> IsCleanArray(Stringify(key, value).value))
    decreases Depth(value), 1
  {
    var w := Sanitize(key, value);
    if w.Ok? {
      match w.value
      case JObj(ms) =>
        StringifyMembersClean(ms, Depth(value));
      case JArr(xs) =>
        StringifyItemsClean(xs, 0, Depth(value));
        if key.Name? && IsListKey(key.name) && Stringify(key, value).Ok? {
          CleanListSpec(value.items);
          StringifyItemsText(xs, 0, Depth(value));
          CleanSurvives(xs, StringifyItems(xs, 0, Depth(value)).value);
        }
      case _ =>
    }
  }

  lemma {:induction false} StringifyMembersClean(ms: seq<Member>, bound: nat)
    requires MembersDepth(ms) < bound
    ensures StringifyMembers(ms, bound).Ok? ==>
      NamedSatisfyIn(StringifyMembers(ms, bound).value, ListKeys, IsCleanArray)
    decreases bound, 0, |ms|
  {
    if ms != [] {
      MemberDepthBound(ms, 0);
      MembersDepthSuffix(ms, 1);
      StringifyClean(Name(ms[0].name), ms[0].value);
      StringifyMembersClean(ms[1..], bound);
      var r := StringifyMembers(ms, bound);
      if r.Ok? {
        var v := Stringify(Name(ms[0].name), ms[0].value).value;
        var rest := StringifyMembers(ms[1..], bound).value;
        if !v.JUndefined? {
          assert r.value == [Member(ms[0].name, v)] + rest;
          assert r.value[1..] == rest;
        }
      }
    }
  }

  lemma {:induction false} StringifyItemsClean(xs: seq<Json>, at: nat, bound: nat)
    requires ItemsDepth(xs) < bound
    ensures StringifyItems(xs, at, bound).Ok? ==>
      NamedSatisfyItems(StringifyItems(xs, at, bound).value, ListKeys, IsCleanArray)
    decreases bound, 0, |xs|
  {
    if xs != [] {
      ItemDepthBound(xs, 0);
      ItemsDepthSuffix(xs, 1);
      StringifyClean(Index(at), xs[0]);
      StringifyItemsClean(xs[1..], at + 1, bound);
      var r := StringifyItems(xs, at, bound);
      if r.Ok? {
        var v := Stringify(Index(at), xs[0]).value;
        var rest := StringifyItems(xs[1..], at + 1, bound).value;
        assert r.value == [Emitted(v)] + rest;
        assert r.value[1..] == rest;
      }
    }
  }

  /** No `undefined` anywhere in the tree, as in every document `JSON.parse` produces. */
  predicate Defined(v: Json)
    decreases v, 1
  {
    match v
    case JObj(ms) => DefinedIn(ms)
    case JArr(xs) => DefinedItems(xs)
    case JUndefined => false
    case _ => true
  }

  predicate DefinedIn(ms: seq<Member>)
    decreases ms, 0
  {
    ms == [] || (Defined(ms[0].value) && DefinedIn(ms[1..]))
  }

  predicate DefinedItems(xs: seq<Json>)
    decreases xs, 0
  {
    xs == [] || (Defined(xs[0]) && DefinedItems(xs[1..]))
  }

  /** Away from the list keys the replacer changes nothing: a parsed document without
      `phrases`, `values` or `synonyms` members is written exactly as it is. */
  lemma {:induction false} StringifyPlain(key: Key, value: Json)
    requires !(key.Name? && IsListKey(key.name))
    requires NoMemberNamed(value, ListKeys) && Defined(value)
    ensures Stringify(key, value) == Ok(value)
    decreases Depth(value), 1
  {
    match value
    case JObj(ms) => StringifyMembersPlain(ms, Depth(value));
    case JArr(xs) => StringifyItemsPlain(xs, 0, Depth(value));
    case _ =>
  }

  lemma {:induction false} StringifyMembersPlain(ms: seq<Member>, bound: nat)
    requires MembersDepth(ms) < bound
    requires NoMemberNamedIn(ms, ListKeys) && DefinedIn(ms)
    ensures StringifyMembers(ms, bound) == Ok(ms)
    decreases bound, 0, |ms|
  {
    if ms != [] {
      MemberDepthBound(ms, 0);
      MembersDepthSuffix(ms, 1);
      StringifyPlain(Name(ms[0].name), ms[0].value);
      StringifyMembersPlain(ms[1..], bound);
      assert [Member(ms[0].name, ms[0].value)] + ms[1..] == ms;
    }
  }

  lemma {:induction false} StringifyItemsPlain(xs: seq<Json>, at: nat, bound: nat)
    requires ItemsDepth(xs) < bound
    requires NoMemberNamedItems(xs, ListKeys) && DefinedItems(xs)
    ensures StringifyItems(xs, at, bound) == Ok(xs)
    decreases bound, 0, |xs|
  {
    if xs != [] {
      ItemDepthBound(xs, 0);
      ItemsDepthSuffix(xs, 1);
      StringifyPlain(Index(at), xs[0]);
      StringifyItemsPlain(xs[1..], at + 1, bound);
      assert [xs[0]] + xs[1..] == xs;
    }
  }
}
