/** `traverseAndProcessJsonTree`: visit every key of a node in order; a container
    child is first replaced by the processor's result and the walk then descends into
    that result; any other child is replaced by the processor's result and not descended
    into. The root itself is never handed to the processor. A processor that throws
    ends the walk (the failure propagates to the caller). */
module Walker {
  import opened JsonValue

  /** `nodeProcessor(key, value, context)`, the context already bound. */
  type Processor = (Key, Json) -> Result<Json>

  /** The processor never turns a container into a deeper value. The source does not
      guard against processors that grow the tree without bound; the two it uses never
      deepen a container, and this is what makes the walk finish. */
  ghost predicate NonDeepening(p: Processor) {
    forall k, v :: IsContainer(v) && p(k, v).Ok? ==> Depth(p(k, v).value) <= Depth(v)
  }

  /** Lift a failure over a prefix that has already been processed. */
  function Prepend<T>(done: seq<T>, rest: Result<seq<T>>): Result<seq<T>> {
    match rest
    case Ok(xs) => Ok(done + xs)
    case Err(e) => Err(e)
  }

  lemma PrependNil<T>(r: Result<seq<T>>)
    ensures Prepend([], r) == r
  {
    if r.Ok? { assert [] + r.value == r.value; }
  }

  lemma PrependAssoc<T>(a: seq<T>, b: seq<T>, r: Result<seq<T>>)
    ensures Prepend(a, Prepend(b, r)) == Prepend(a + b, r)
  {
    if r.Ok? { assert a + (b + r.value) == a + b + r.value; }
  }

  // ---------------------------------------------------------------------------
  // The walk as a function of the node.

  function Walk(node: Json, p: Processor): Result<Json>
    requires NonDeepening(p)
    decreases Depth(node), 1
  {
    match node
    case JObj(ms) =>
      var ms' :- WalkMembers(ms, p, Depth(node));
      Ok(JObj(ms'))
    case JArr(xs) =>
      var xs' :- WalkItems(xs, 0, p, Depth(node));
      Ok(JArr(xs'))
    case _ => Ok(node)
  }

  /** One step of the loop body: process the child, and walk into it when it was a container. */
  function Visit(key: Key, child: Json, p: Processor, bound: nat): Result<Json>
    requires NonDeepening(p)
    requires Depth(child) < bound
    decreases bound, 0, 0
  {
    if IsContainer(child) then
      var c :- p(key, child);
      Walk(c, p)
    else
      p(key, child)
  }

  function WalkMembers(ms: seq<Member>, p: Processor, bound: nat): Result<seq<Member>>
    requires NonDeepening(p)
    requires MembersDepth(ms) < bound
    decreases bound, 0, |ms|
  {
    if ms == [] then Ok([])
    else
      var v :- Visit(Name(ms[0].name), ms[0].value, p, bound);
      Prepend([Member(ms[0].name, v)], WalkMembers(ms[1..], p, bound))
  }

  /** The items of an array from index `at` on; each is visited under its index. */
  function WalkItems(xs: seq<Json>, at: nat, p: Processor, bound: nat): Result<seq<Json>>
    requires NonDeepening(p)
    requires ItemsDepth(xs) < bound
    decreases bound, 0, |xs|
  {
    if xs == [] then Ok([])
    else
      var v :- Visit(Index(at), xs[0], p, bound);
      Prepend([v], WalkItems(xs[1..], at + 1, p, bound))
  }

  // ---------------------------------------------------------------------------
  // The walk as the source performs it: a loop over the keys assigning each child in place.

  method Traverse(node: Json, p: Processor) returns (r: Result<Json>)
    requires NonDeepening(p)
    ensures r == Walk(node, p)
    decreases Depth(node), 1
  {
    match node {
      case JObj(ms) =>
        var walked := TraverseMembers(ms, p, Depth(node));
        if walked.Err? {
          return Err(walked.error);
        }
        return Ok(JObj(walked.value));
      case JArr(xs) =>
        var walked := TraverseItems(xs, p, Depth(node));
        if walked.Err? {
          return Err(walked.error);
        }
        return Ok(JArr(walked.value));
      case _ =>
        return Ok(node);
    }
  }

  /** The loop over the keys of an object, each member replaced in place. */
  method TraverseMembers(ms: seq<Member>, p: Processor, bound: nat) returns (r: Result<seq<Member>>)
    requires NonDeepening(p) && MembersDepth(ms) < bound
    ensures r == WalkMembers(ms, p, bound)
    decreases bound, 0
  {
    var current := ms;
    var i := 0;
    assert ms[0..] == ms;
    PrependNil(WalkMembers(ms, p, bound));
    while i < |current|
      invariant 0 <= i <= |ms| == |current|
      invariant current[i..] == ms[i..]
      invariant MembersDepth(ms[i..]) < bound
      invariant WalkMembers(ms, p, bound) == Prepend(current[..i], WalkMembers(ms[i..], p, bound))
    {
      var key := current[i].name;
      var child := current[i].value;
      MemberDepthBound(ms, i);
      MembersDepthSuffix(ms, i + 1);
      assert ms[i..][0] == ms[i] && ms[i..][1..] == ms[i + 1..];
      var updated: Result<Json>;
      if IsContainer(child) {
        var processed := p(Name(key), child);
        if processed.Err? {
          return Err(processed.error);
        }
        current := current[i := Member(key, processed.value)];
        updated := Traverse(current[i].value, p);
      } else {
        updated := p(Name(key), child);
      }
      if updated.Err? {
        return Err(updated.error);
      }
      PrependAssoc(current[..i], [Member(key, updated.value)], WalkMembers(ms[i + 1..], p, bound));
      current := current[i := Member(key, updated.value)];
      assert current[..i + 1] == current[..i] + [Member(key, updated.value)];
      i := i + 1;
    }
    assert current[..i] == current && ms[i..] == [];
    assert current + [] == current;
    return Ok(current);
  }

  /** The loop over the indices of an array, each item replaced in place. */
  method TraverseItems(xs: seq<Json>, p: Processor, bound: nat) returns (r: Result<seq<Json>>)
    requires NonDeepening(p) && ItemsDepth(xs) < bound
    ensures r == WalkItems(xs, 0, p, bound)
    decreases bound, 0
  {
    var current := xs;
    var i := 0;
    assert xs[0..] == xs;
    PrependNil(WalkItems(xs, 0, p, bound));
    while i < |current|
      invariant 0 <= i <= |xs| == |current|
      invariant current[i..] == xs[i..]
      invariant ItemsDepth(xs[i..]) < bound
      invariant WalkItems(xs, 0, p, bound) == Prepend(current[..i], WalkItems(xs[i..], i, p, bound))
    {
      var child := current[i];
      ItemDepthBound(xs, i);
      ItemsDepthSuffix(xs, i + 1);
      assert xs[i..][0] == xs[i] && xs[i..][1..] == xs[i + 1..];
      var updated: Result<Json>;
      if IsContainer(child) {
        var processed := p(Index(i), child);
        if processed.Err? {
          return Err(processed.error);
        }
        current := current[i := processed.value];
        updated := Traverse(current[i], p);
      } else {
        updated := p(Index(i), child);
      }
      if updated.Err? {
        return Err(updated.error);
      }
      PrependAssoc(current[..i], [updated.value], WalkItems(xs[i + 1..], i + 1, p, bound));
      current := current[i := updated.value];
      assert current[..i + 1] == current[..i] + [updated.value];
      i := i + 1;
    }
    assert current[..i] == current && xs[i..] == [];
    assert current + [] == current;
    return Ok(current);
  }

  // ---------------------------------------------------------------------------
  // What a walk touches.

  function Names(ms: seq<Member>): seq<string> {
    seq(|ms|, i requires 0 <= i < |ms| => ms[i].name)
  }

  /** The same skeleton at the top: an object keeps its keys in order, an array its length,
      and a scalar root is returned as it is (the root is never handed to the processor). */
  predicate SameTop(a: Json, b: Json) {
    match a
    case JObj(ms) => b.JObj? && Names(b.members) == Names(ms)
    case JArr(xs) => b.JArr? && |b.items| == |xs|
    case _ => b == a
  }

  lemma {:induction false} WalkMembersKeepsNames(ms: seq<Member>, p: Processor, bound: nat)
    requires NonDeepening(p) && MembersDepth(ms) < bound
    ensures WalkMembers(ms, p, bound).Ok? ==> Names(WalkMembers(ms, p, bound).value) == Names(ms)
    decreases |ms|
  {
    if ms != [] {
      WalkMembersKeepsNames(ms[1..], p, bound);
      var r := WalkMembers(ms, p, bound);
      if r.Ok? {
        var rest := WalkMembers(ms[1..], p, bound).value;
        assert r.value == [Member(ms[0].name, r.value[0].value)] + rest;
        assert Names(r.value) == [ms[0].name] + Names(rest);
        assert Names(ms) == [ms[0].name] + Names(ms[1..]);
      }
    }
  }

  lemma {:induction false} WalkItemsKeepsLength(xs: seq<Json>, at: nat, p: Processor, bound: nat)
    requires NonDeepening(p) && ItemsDepth(xs) < bound
    ensures WalkItems(xs, at, p, bound).Ok? ==> |WalkItems(xs, at, p, bound).value| == |xs|
    decreases |xs|
  {
    if xs != [] {
      WalkItemsKeepsLength(xs[1..], at + 1, p, bound);
    }
  }

  /** No key is added, removed or reordered by a walk, whatever the processor does. */
  lemma WalkKeepsKeys(node: Json, p: Processor)
    requires NonDeepening(p)
    ensures Walk(node, p).Ok? ==> SameTop(node, Walk(node, p).value)
  {
    match node
    case JObj(ms) => WalkMembersKeepsNames(ms, p, Depth(node));
    case JArr(xs) => WalkItemsKeepsLength(xs, 0, p, Depth(node));
    case _ =>
  }

  /** The processor leaves every container alone and only rewrites scalars. */
  ghost predicate LeavesOnly(p: Processor) {
    forall k, v :: IsContainer(v) ==> p(k, v) == Ok(v)
  }

  /** Independent reference: apply the processor once to every scalar reachable in the
      tree, in document order, keeping every container. */
  function MapLeaves(node: Json, p: Processor): Result<Json>
    decreases node, 1
  {
    match node
    case JObj(ms) =>
      var ms' :- MapLeafMembers(ms, p);
      Ok(JObj(ms'))
    case JArr(xs) =>
      var xs' :- MapLeafItems(xs, 0, p);
      Ok(JArr(xs'))
    case _ => Ok(node)
  }

  function MapLeafMembers(ms: seq<Member>, p: Processor): Result<seq<Member>>
    decreases ms, 0
  {
    if ms == [] then Ok([])
    else
      var v :- if IsContainer(ms[0].value) then MapLeaves(ms[0].value, p) else p(Name(ms[0].name), ms[0].value);
      Prepend([Member(ms[0].name, v)], MapLeafMembers(ms[1..], p))
  }

  function MapLeafItems(xs: seq<Json>, at: nat, p: Processor): Result<seq<Json>>
    decreases xs, 0
  {
    if xs == [] then Ok([])
    else
      var v :- if IsContainer(xs[0]) then MapLeaves(xs[0], p) else p(Index(at), xs[0]);
      Prepend([v], MapLeafItems(xs[1..], at + 1, p))
  }

  lemma LeavesOnlyNonDeepening(p: Processor)
    requires LeavesOnly(p)
    ensures NonDeepening(p)
  {
  }

  /** For a processor that leaves containers alone, the walk applies it exactly once to
      every scalar of the tree, in order, and to nothing else. */
  lemma {:induction false} WalkIsMapLeaves(node: Json, p: Processor)
    requires LeavesOnly(p)
    ensures NonDeepening(p) && Walk(node, p) == MapLeaves(node, p)
    decreases node, 1
  {
    LeavesOnlyNonDeepening(p);
    match node
    case JObj(ms) => WalkMembersIsMap(ms, p, Depth(node));
    case JArr(xs) => WalkItemsIsMap(xs, 0, p, Depth(node));
    case _ =>
  }

  lemma {:induction false} WalkMembersIsMap(ms: seq<Member>, p: Processor, bound: nat)
    requires LeavesOnly(p) && MembersDepth(ms) < bound
    ensures NonDeepening(p) && WalkMembers(ms, p, bound) == MapLeafMembers(ms, p)
    decreases ms, 0
  {
    LeavesOnlyNonDeepening(p);
    if ms != [] {
      if IsContainer(ms[0].value) {
        WalkIsMapLeaves(ms[0].value, p);
      }
      WalkMembersIsMap(ms[1..], p, bound);
    }
  }

  lemma {:induction false} WalkItemsIsMap(xs: seq<Json>, at: nat, p: Processor, bound: nat)
    requires LeavesOnly(p) && ItemsDepth(xs) < bound
    ensures NonDeepening(p) && WalkItems(xs, at, p, bound) == MapLeafItems(xs, at, p)
    decreases xs, 0
  {
    LeavesOnlyNonDeepening(p);
    if xs != [] {
      if IsContainer(xs[0]) {
        WalkIsMapLeaves(xs[0], p);
      }
      WalkItemsIsMap(xs[1..], at + 1, p, bound);
    }
  }

  /** The processor returns every value unchanged unless its key is one of `names`. */
  ghost predicate IdentityExcept(p: Processor, names: set<string>) {
    forall k: Key, v :: !(k.Name? && k.name in names) ==> p(k, v) == Ok(v)
  }

  /** No object anywhere in the tree has a member named in `names`. */
  predicate NoMemberNamed(node: Json, names: set<string>)
    decreases node, 1
  {
    match node
    case JObj(ms) => NoMemberNamedIn(ms, names)
    case JArr(xs) => NoMemberNamedItems(xs, names)
    case _ => true
  }

  predicate NoMemberNamedIn(ms: seq<Member>, names: set<string>)
    decreases ms, 0
  {
    ms == [] || (ms[0].name !in names && NoMemberNamed(ms[0].value, names) && NoMemberNamedIn(ms[1..], names))
  }

  predicate NoMemberNamedItems(xs: seq<Json>, names: set<string>)
    decreases xs, 0
  {
    xs == [] || (NoMemberNamed(xs[0], names) && NoMemberNamedItems(xs[1..], names))
  }

  /** A processor that only acts under certain keys leaves a tree without those keys unchanged. */
  lemma {:induction false} WalkUntouched(node: Json, p: Processor, names: set<string>)
    requires NonDeepening(p) && IdentityExcept(p, names) && NoMemberNamed(node, names)
    ensures Walk(node, p) == Ok(node)
    decreases node, 1
  {
    match node
    case JObj(ms) => WalkMembersUntouched(ms, p, names, Depth(node));
    case JArr(xs) => WalkItemsUntouched(xs, 0, p, names, Depth(node));
    case _ =>
  }

  lemma {:induction false} WalkMembersUntouched(ms: seq<Member>, p: Processor, names: set<string>, bound: nat)
    requires NonDeepening(p) && IdentityExcept(p, names) && NoMemberNamedIn(ms, names)
    requires MembersDepth(ms) < bound
    ensures WalkMembers(ms, p, bound) == Ok(ms)
    decreases ms, 0
  {
    if ms != [] {
      assert p(Name(ms[0].name), ms[0].value) == Ok(ms[0].value);
      if IsContainer(ms[0].value) {
        WalkUntouched(ms[0].value, p, names);
      }
      WalkMembersUntouched(ms[1..], p, names, bound);
      assert [Member(ms[0].name, ms[0].value)] + ms[1..] == ms;
    }
  }

  lemma {:induction false} WalkItemsUntouched(xs: seq<Json>, at: nat, p: Processor, names: set<string>, bound: nat)
    requires NonDeepening(p) && IdentityExcept(p, names) && NoMemberNamedItems(xs, names)
    requires ItemsDepth(xs) < bound
    ensures WalkItems(xs, at, p, bound) == Ok(xs)
    decreases xs, 0
  {
    if xs != [] {
      assert p(Index(at), xs[0]) == Ok(xs[0]);
      if IsContainer(xs[0]) {
        WalkUntouched(xs[0], p, names);
      }
      WalkItemsUntouched(xs[1..], at + 1, p, names, bound);
      assert [xs[0]] + xs[1..] == xs;
    }
  }

  // ---------------------------------------------------------------------------
  // What a walk establishes under the keys its processor acts on.

  /** Every member named in `names`, anywhere in the tree, has a value satisfying `ok`. */
  predicate NamedSatisfy(node: Json, names: set<string>, ok: Json -> bool)
    decreases node, 1
  {
    match node
    case JObj(ms) => NamedSatisfyIn(ms, names, ok)
    case JArr(xs) => NamedSatisfyItems(xs, names, ok)
    case _ => true
  }

  predicate NamedSatisfyIn(ms: seq<Member>, names: set<string>, ok: Json -> bool)
    decreases ms, 0
  {
    ms == [] ||
      ((ms[0].name in names ==> ok(ms[0].value))
       && NamedSatisfy(ms[0].value, names, ok) && NamedSatisfyIn(ms[1..], names, ok))
  }

  predicate NamedSatisfyItems(xs: seq<Json>, names: set<string>, ok: Json -> bool)
    decreases xs, 0
  {
    xs == [] || (NamedSatisfy(xs[0], names, ok) && NamedSatisfyItems(xs[1..], names, ok))
  }

  /** Under a key of `names` the processor's result satisfies `ok` and has no member
      named in `names`, so walking into it changes nothing. */
  ghost predicate Settles(p: Processor, names: set<string>, ok: Json -> bool) {
    forall k: Key, v :: k.Name? && k.name in names && p(k, v).Ok? ==>
      ok(p(k, v).value) && NoMemberNamed(p(k, v).value, names)
  }

  lemma {:induction false} NoMemberNamedSatisfies(node: Json, names: set<string>, ok: Json -> bool)
    requires NoMemberNamed(node, names)
    ensures NamedSatisfy(node, names, ok)
    decreases node, 1
  {
    match node
    case JObj(ms) => NoMemberNamedSatisfiesIn(ms, names, ok);
    case JArr(xs) => NoMemberNamedSatisfiesItems(xs, names, ok);
    case _ =>
  }

  lemma {:induction false} NoMemberNamedSatisfiesIn(ms: seq<Member>, names: set<string>, ok: Json -> bool)
    requires NoMemberNamedIn(ms, names)
    ensures NamedSatisfyIn(ms, names, ok)
    decreases ms, 0
  {
    if ms != [] {
      NoMemberNamedSatisfies(ms[0].value, names, ok);
      NoMemberNamedSatisfiesIn(ms[1..], names, ok);
    }
  }

  lemma {:induction false} NoMemberNamedSatisfiesItems(xs: seq<Json>, names: set<string>, ok: Json -> bool)
    requires NoMemberNamedItems(xs, names)
    ensures NamedSatisfyItems(xs, names, ok)
    decreases xs, 0
  {
    if xs != [] {
      NoMemberNamedSatisfies(xs[0], names, ok);
      NoMemberNamedSatisfiesItems(xs[1..], names, ok);
    }
  }

  /** After a walk with a processor that settles the keys it acts on, every member under
      one of those keys, at any depth, holds a settled value. */
  lemma {:induction false} WalkSettles(node: Json, p: Processor, names: set<string>, ok: Json -> bool)
    requires NonDeepening(p) && IdentityExcept(p, names) && Settles(p, names, ok)
    ensures Walk(node, p).Ok? ==> NamedSatisfy(Walk(node, p).value, names, ok)
    decreases Depth(node), 1
  {
    match node
    case JObj(ms) => WalkMembersSettles(ms, p, names, ok, Depth(node));
    case JArr(xs) => WalkItemsSettles(xs, 0, p, names, ok, Depth(node));
    case _ =>
  }

  lemma {:induction false} VisitSettles(key: Key, child: Json, p: Processor, names: set<string>, ok: Json -> bool, bound: nat)
    requires NonDeepening(p) && IdentityExcept(p, names) && Settles(p, names, ok)
    requires Depth(child) < bound
    ensures Visit(key, child, p, bound).Ok? ==>
      && NamedSatisfy(Visit(key, child, p, bound).value, names, ok)
      && (key.Name? && key.name in names ==> ok(Visit(key, child, p, bound).value))
    decreases bound, 0, 0
  {
    var r := p(key, child);
    if key.Name? && key.name in names {
      if r.Ok? {
        NoMemberNamedSatisfies(r.value, names, ok);
        if IsContainer(child) {
          WalkUntouched(r.value, p, names);
        }
      }
    } else {
      assert r == Ok(child);
      if IsContainer(child) {
        WalkSettles(child, p, names, ok);
      }
    }
  }

  lemma {:induction false} WalkMembersSettles(ms: seq<Member>, p: Processor, names: set<string>, ok: Json -> bool, bound: nat)
    requires NonDeepening(p) && IdentityExcept(p, names) && Settles(p, names, ok)
    requires MembersDepth(ms) < bound
    ensures WalkMembers(ms, p, bound).Ok? ==> NamedSatisfyIn(WalkMembers(ms, p, bound).value, names, ok)
    decreases bound, 0, |ms|
  {
    if ms != [] {
      MemberDepthBound(ms, 0);
      MembersDepthSuffix(ms, 1);
      VisitSettles(Name(ms[0].name), ms[0].value, p, names, ok, bound);
      WalkMembersSettles(ms[1..], p, names, ok, bound);
      var r := WalkMembers(ms, p, bound);
      if r.Ok? {
        var v := Visit(Name(ms[0].name), ms[0].value, p, bound).value;
        var rest := WalkMembers(ms[1..], p, bound).value;
        assert r.value == [Member(ms[0].name, v)] + rest;
        assert r.value[1..] == rest;
      }
    }
  }

  lemma {:induction false} WalkItemsSettles(xs: seq<Json>, at: nat, p: Processor, names: set<string>, ok: Json -> bool, bound: nat)
    requires NonDeepening(p) && IdentityExcept(p, names) && Settles(p, names, ok)
    requires ItemsDepth(xs) < bound
    ensures WalkItems(xs, at, p, bound).Ok? ==> NamedSatisfyItems(WalkItems(xs, at, p, bound).value, names, ok)
    decreases bound, 0, |xs|
  {
    if xs != [] {
      ItemDepthBound(xs, 0);
      ItemsDepthSuffix(xs, 1);
      VisitSettles(Index(at), xs[0], p, names, ok, bound);
      WalkItemsSettles(xs[1..], at + 1, p, names, ok, bound);
      var r := WalkItems(xs, at, p, bound);
      if r.Ok? {
        var v := Visit(Index(at), xs[0], p, bound).value;
        var rest := WalkItems(xs[1..], at + 1, p, bound).value;
        assert r.value == [v] + rest;
        assert r.value[1..] == rest;
      }
    }
  }
}
