/** `explodeSpintax` and the permutation helpers behind it: under the key "phrases",
    every spintax definition is expanded into all of its variants, each variant trimmed
    and its runs of spaces collapsed, and the expansions of the definitions concatenated
    in order. The expansion follows the `[`, `]`, `|` syntax the hook configures for the
    spintax library: a bracket group offers its `|`-separated options, and the variants
    are all the ways of choosing one option per group. */
module Spintax {
  import opened JsonValue
  import opened Text
  import opened Walker

  // ---------------------------------------------------------------------------
  // The definition language.

  /** A run of literal text, or a bracket group with its options. */
  datatype Segment = Literal(text: string) | Group(options: seq<string>)

  /** Prefix one literal character, merging it into a literal run that follows. */
  function AddChar(c: char, segs: seq<Segment>): seq<Segment> {
    if segs != [] && segs[0].Literal? then [Literal([c] + segs[0].text)] + segs[1..]
    else [Literal([c])] + segs
  }

  /** Read a definition: `[` up to the next `]` is a group split at `|`; a `[` with no
      `]` after it, and every other character, is literal text. */
  function Parse(s: string): seq<Segment>
    decreases |s|
  {
    if s == [] then []
    else if s[0] == '[' then
      match CharIndex(s, ']', 1)
      case Some(j) => [Group(Split(s[1..j], '|'))] + Parse(s[j + 1..])
      case None => AddChar(s[0], Parse(s[1..]))
    else AddChar(s[0], Parse(s[1..]))
  }

  /** Write segments back in the definition syntax. */
  function Render(segs: seq<Segment>): string
    decreases |segs|
  {
    if segs == [] then ""
    else match segs[0]
      case Literal(t) => t + Render(segs[1..])
      case Group(opts) => "[" + Join(opts, '|') + "]" + Render(segs[1..])
  }

  lemma RenderAddChar(c: char, segs: seq<Segment>)
    ensures Render(AddChar(c, segs)) == [c] + Render(segs)
  {
    if segs != [] && segs[0].Literal? {
      assert AddChar(c, segs)[1..] == segs[1..];
    } else {
      assert AddChar(c, segs)[1..] == segs;
    }
  }

  lemma RenderGroupCons(opts: seq<string>, rest: seq<Segment>)
    ensures Render([Group(opts)] + rest) == "[" + Join(opts, '|') + "]" + Render(rest)
  {
    var segs := [Group(opts)] + rest;
    assert segs[0] == Group(opts) && segs[1..] == rest;
  }

  lemma ParseGroupUnfold(s: string, j: nat)
    requires s != [] && s[0] == '[' && CharIndex(s, ']', 1) == Some(j)
    ensures Parse(s) == [Group(Split(s[1..j], '|'))] + Parse(s[j + 1..])
  {
  }

  lemma Bracketed(s: string, j: nat)
    requires s != [] && s[0] == '[' && 1 <= j < |s| && s[j] == ']'
    ensures s == "[" + s[1..j] + "]" + s[j + 1..]
  {
  }

  lemma RenderParseGroup(s: string, j: nat)
    requires s != [] && s[0] == '[' && CharIndex(s, ']', 1) == Some(j)
    requires Render(Parse(s[j + 1..])) == s[j + 1..]
    ensures Render(Parse(s)) == s
  {
    ParseGroupUnfold(s, j);
    RenderGroupCons(Split(s[1..j], '|'), Parse(s[j + 1..]));
    JoinSplitInverse(s[1..j], '|');
    Bracketed(s, j);
  }

  lemma RenderParseChar(s: string)
    requires s != [] && !(s[0] == '[' && CharIndex(s, ']', 1).Some?)
    requires Render(Parse(s[1..])) == s[1..]
    ensures Render(Parse(s)) == s
  {
    RenderAddChar(s[0], Parse(s[1..]));
    assert s == [s[0]] + s[1..];
  }

  /** Reading loses nothing: writing the segments back gives the definition. */
  lemma {:induction false} RenderParse(s: string)
    ensures Render(Parse(s)) == s
    decreases |s|
  {
    if s == [] {
    } else if s[0] == '[' && CharIndex(s, ']', 1).Some? {
      var j := CharIndex(s, ']', 1).value;
      RenderParse(s[j + 1..]);
      RenderParseGroup(s, j);
    } else {
      RenderParse(s[1..]);
      RenderParseChar(s);
    }
  }

  // ---------------------------------------------------------------------------
  // Expansion.

  /** `p` in front of every string of `xs`. */
  function PrefixAll(p: string, xs: seq<string>): (r: seq<string>)
    ensures |r| == |xs|
    ensures forall i :: 0 <= i < |xs| ==> r[i] == p + xs[i]
  {
    seq(|xs|, i requires 0 <= i < |xs| => p + xs[i])
  }

  /** Every option in front of every tail; the first option's variants come first. */
  function Choose(opts: seq<string>, tails: seq<string>): seq<string>
    decreases |opts|
  {
    if opts == [] then [] else PrefixAll(opts[0], tails) + Choose(opts[1..], tails)
  }

  /** `spinner.unspin()`: all variants, the first group varying slowest. */
  function Unspin(segs: seq<Segment>): seq<string>
    decreases |segs|
  {
    if segs == [] then [""]
    else match segs[0]
      case Literal(t) => PrefixAll(t, Unspin(segs[1..]))
      case Group(opts) => Choose(opts, Unspin(segs[1..]))
  }

  /** The number of variants: the product of the option counts. */
  function Count(segs: seq<Segment>): nat
    decreases |segs|
  {
    if segs == [] then 1
    else match segs[0]
      case Literal(_) => Count(segs[1..])
      case Group(opts) => |opts| * Count(segs[1..])
  }

  lemma {:induction false} ChooseLength(opts: seq<string>, tails: seq<string>)
    ensures |Choose(opts, tails)| == |opts| * |tails|
    decreases |opts|
  {
    if opts != [] {
      ChooseLength(opts[1..], tails);
      assert |opts| * |tails| == |tails| + (|opts| - 1) * |tails|;
    }
  }

  /** There are as many variants as option combinations. */
  lemma {:induction false} UnspinCount(segs: seq<Segment>)
    ensures |Unspin(segs)| == Count(segs)
    decreases |segs|
  {
    if segs != [] {
      UnspinCount(segs[1..]);
      if segs[0].Group? {
        ChooseLength(segs[0].options, Unspin(segs[1..]));
      }
    }
  }

  /** `x` is a variant of the segments: each literal in turn, and one option of each group. */
  predicate Fits(segs: seq<Segment>, x: string)
    decreases |segs|
  {
    if segs == [] then x == ""
    else match segs[0]
      case Literal(t) => |t| <= |x| && x[..|t|] == t && Fits(segs[1..], x[|t|..])
      case Group(opts) => exists o :: o in opts && |o| <= |x| && x[..|o|] == o && Fits(segs[1..], x[|o|..])
  }

  lemma PrefixAllMember(p: string, xs: seq<string>, x: string)
    ensures x in PrefixAll(p, xs) <==> (|p| <= |x| && x[..|p|] == p && x[|p|..] in xs)
  {
    var r := PrefixAll(p, xs);
    if x in r {
      var i :| 0 <= i < |r| && r[i] == x;
      assert x[|p|..] == xs[i];
    }
    if |p| <= |x| && x[..|p|] == p && x[|p|..] in xs {
      var i :| 0 <= i < |xs| && xs[i] == x[|p|..];
      assert r[i] == x;
    }
  }

  lemma {:induction false} ChooseMember(opts: seq<string>, tails: seq<string>, x: string)
    ensures x in Choose(opts, tails)
      <==> exists o :: o in opts && |o| <= |x| && x[..|o|] == o && x[|o|..] in tails
    decreases |opts|
  {
    if opts != [] {
      ChooseMember(opts[1..], tails, x);
      PrefixAllMember(opts[0], tails, x);
      if exists o :: o in opts && |o| <= |x| && x[..|o|] == o && x[|o|..] in tails {
        var o :| o in opts && |o| <= |x| && x[..|o|] == o && x[|o|..] in tails;
        if o != opts[0] {
          assert o in opts[1..];
        }
      }
    }
  }

  /** The variants are exactly the strings that fit the segments. */
  lemma {:induction false} UnspinIff(segs: seq<Segment>, x: string)
    ensures x in Unspin(segs) <==> Fits(segs, x)
    decreases |segs|
  {
    if segs != [] {
      var tails := Unspin(segs[1..]);
      match segs[0]
      case Literal(t) =>
        PrefixAllMember(t, tails, x);
        if |t| <= |x| {
          UnspinIff(segs[1..], x[|t|..]);
        }
      case Group(opts) =>
        ChooseMember(opts, tails, x);
        forall o | o in opts && |o| <= |x|
          ensures x[|o|..] in tails <==> Fits(segs[1..], x[|o|..])
        {
          UnspinIff(segs[1..], x[|o|..]);
        }
    }
  }

  // ---------------------------------------------------------------------------
  // One definition, and the array of them.

  /** Each variant trimmed, runs of spaces collapsed to one. */
  function NormalizeAll(xs: seq<string>): (r: seq<string>)
    ensures |r| == |xs|
    ensures forall i :: 0 <= i < |xs| ==> r[i] == Normalize(xs[i])
  {
    seq(|xs|, i requires 0 <= i < |xs| => Normalize(xs[i]))
  }

  /** `createAllPermutations(definition)`: `undefined` gives no variant; a string gives its
      normalized variants; any other value makes the spintax library throw. */
  function Permutations(definition: Json): Result<seq<string>> {
    match definition
    case JUndefined => Ok([])
    case JStr(s) => Ok(NormalizeAll(Unspin(Parse(s))))
    case _ => Err(UnsupportedSpinner(definition))
  }

  /** The values a `for...in` loop over `v` reaches through `v[key]`: the items of an array,
      the member values of an object, the characters of a string, nothing otherwise. */
  function ForInValues(v: Json): (r: seq<Json>)
    ensures v.JArr? ==> r == v.items
  {
    match v
    case JArr(xs) => xs
    case JObj(ms) => seq(|ms|, i requires 0 <= i < |ms| => ms[i].value)
    case JStr(s) => seq(|s|, i requires 0 <= i < |s| => JStr([s[i]]))
    case _ => []
  }

  /** The expansions of the definitions, concatenated in order; the first failure wins. */
  function ExpandAll(defs: seq<Json>): Result<seq<string>>
    decreases |defs|
  {
    if defs == [] then Ok([])
    else
      var head :- Permutations(defs[0]);
      Prepend(head, ExpandAll(defs[1..]))
  }

  /** `createAllPermutationsFromSpinnerArray`: the loop that concatenates the expansions. */
  method CreateAllPermutationsFromSpinnerArray(value: Json) returns (r: Result<seq<string>>)
    ensures r == ExpandAll(ForInValues(value))
  {
    var defs := ForInValues(value);
    var resultArray: seq<string> := [];
    var i := 0;
    assert defs[0..] == defs;
    PrependNil(ExpandAll(defs));
    while i < |defs|
      invariant 0 <= i <= |defs|
      invariant ExpandAll(defs) == Prepend(resultArray, ExpandAll(defs[i..]))
    {
      var perms := Permutations(defs[i]);
      assert defs[i..][1..] == defs[i + 1..];
      if perms.Err? {
        return Err(perms.error);
      }
      PrependAssoc(resultArray, perms.value, ExpandAll(defs[i + 1..]));
      resultArray := resultArray + perms.value;
      i := i + 1;
    }
    assert resultArray + [] == resultArray;
    return Ok(resultArray);
  }

  /** Every phrase the expansion produces is in normal form. */
  lemma {:induction false} ExpandAllNormalized(defs: seq<Json>)
    ensures ExpandAll(defs).Ok? ==> forall x :: x in ExpandAll(defs).value ==> IsNormalized(x)
    decreases |defs|
  {
    if defs != [] {
      ExpandAllNormalized(defs[1..]);
      var h := Permutations(defs[0]);
      if h.Ok? {
        forall x | x in h.value
          ensures IsNormalized(x)
        {
          var i :| 0 <= i < |h.value| && h.value[i] == x;
          assert defs[0].JStr?;
          NormalizeSpec(Unspin(Parse(defs[0].str))[i]);
        }
      }
    }
  }

  /** The expansion of a concatenation is the concatenation of the expansions. */
  lemma {:induction false} ExpandAllAppend(a: seq<Json>, b: seq<Json>)
    ensures ExpandAll(a + b) == (match ExpandAll(a) case Err(e) => Err(e) case Ok(x) => Prepend(x, ExpandAll(b)))
    decreases |a|
  {
    if a == [] {
      assert a + b == b;
      PrependNil(ExpandAll(b));
    } else {
      assert (a + b)[0] == a[0] && (a + b)[1..] == a[1..] + b;
      ExpandAllAppend(a[1..], b);
      var h := Permutations(a[0]);
      if h.Ok? && ExpandAll(a[1..]).Ok? {
        PrependAssoc(h.value, ExpandAll(a[1..]).value, ExpandAll(b));
      }
    }
  }

  /** Each definition contributes exactly its own variants, in order. */
  lemma ExpandAllSingle(d: Json)
    ensures ExpandAll([d]) == Permutations(d)
  {
    assert [d][1..] == [];
    if Permutations(d).Ok? {
      assert Permutations(d).value + [] == Permutations(d).value;
    }
  }

  // ---------------------------------------------------------------------------
  // The processor of the spintax walk.

  function Strings(xs: seq<string>): (r: seq<Json>)
    ensures |r| == |xs| && forall i :: 0 <= i < |xs| ==> r[i] == JStr(xs[i])
  {
    seq(|xs|, i requires 0 <= i < |xs| => JStr(xs[i]))
  }

  /** `explodeSpintax(key, value)` */
  function ExplodeSpintax(key: Key, value: Json): Result<Json> {
    if key == Name("phrases") then
      var xs :- ExpandAll(ForInValues(value));
      Ok(JArr(Strings(xs)))
    else Ok(value)
  }

  function Exploder(): Processor {
    (k, v) => ExplodeSpintax(k, v)
  }

  /** The value of a "phrases" member after expansion: an array of normalized strings. */
  predicate PhraseList(v: Json) {
    v.JArr? && forall x :: x in v.items ==> x.JStr? && IsNormalized(x.str)
  }

  /** Under every key but "phrases" the processor changes nothing; under "phrases" it
      produces a flat list of normalized phrases, never a deeper value. */
  lemma ExploderSpec()
    ensures IdentityExcept(Exploder(), {"phrases"})
    ensures NonDeepening(Exploder())
    ensures forall v :: Exploder()(Name("phrases"), v).Ok? ==> PhraseList(Exploder()(Name("phrases"), v).value)
  {
    forall v | Exploder()(Name("phrases"), v).Ok?
      ensures PhraseList(Exploder()(Name("phrases"), v).value)
    {
      ExpandAllNormalized(ForInValues(v));
      var xs := ExpandAll(ForInValues(v)).value;
      forall x | x in Strings(xs)
        ensures x.JStr? && IsNormalized(x.str)
      {
        var i :| 0 <= i < |xs| && Strings(xs)[i] == x;
        assert xs[i] in xs;
      }
    }
    forall k, v | IsContainer(v) && Exploder()(k, v).Ok?
      ensures Depth(Exploder()(k, v).value) <= Depth(v)
    {
      if k == Name("phrases") {
        var xs := ExpandAll(ForInValues(v)).value;
        StringsDepth(xs);
      }
    }
  }

  lemma {:induction false} StringsDepth(xs: seq<string>)
    ensures ItemsDepth(Strings(xs)) == 0
    decreases |xs|
  {
    if xs != [] {
      StringsDepth(xs[1..]);
      assert Strings(xs)[1..] == Strings(xs[1..]);
    }
  }

  /** A list of phrases has no member anywhere, so a later walk leaves it alone. */
  lemma PhraseListHasNoMembers(v: Json, names: set<string>)
    requires PhraseList(v)
    ensures NoMemberNamed(v, names)
  {
    PhraseItemsNoMembers(v.items, names);
  }

  lemma {:induction false} PhraseItemsNoMembers(xs: seq<Json>, names: set<string>)
    requires forall x :: x in xs ==> x.JStr?
    ensures NoMemberNamedItems(xs, names)
    decreases |xs|
  {
    if xs != [] {
      assert xs[0] in xs;
      PhraseItemsNoMembers(xs[1..], names);
    }
  }

  /** After the spintax walk, every "phrases" member anywhere in the document holds a
      flat list of normalized phrases. */
  lemma ExplodeWalkPhrases(node: Json)
    ensures NonDeepening(Exploder())
    ensures Walk(node, Exploder()).Ok? ==> NamedSatisfy(Walk(node, Exploder()).value, {"phrases"}, PhraseList)
  {
    ExploderSpec();
    forall k: Key, v | k.Name? && k.name in {"phrases"} && Exploder()(k, v).Ok?
      ensures PhraseList(Exploder()(k, v).value) && NoMemberNamed(Exploder()(k, v).value, {"phrases"})
    {
      assert k == Name("phrases");
      PhraseListHasNoMembers(Exploder()(k, v).value, {"phrases"});
    }
    WalkSettles(node, Exploder(), {"phrases"}, PhraseList);
  }

  // ---------------------------------------------------------------------------
  // Reading definitions piece by piece, and the definitions of the repository's tests.

  /** A group at the front becomes a group segment. */
  lemma ParseGroup(body: string, rest: string)
    requires ']' !in body
    ensures Parse("[" + body + "]" + rest) == [Group(Split(body, '|'))] + Parse(rest)
  {
    var s := "[" + body + "]" + rest;
    forall k | 1 <= k < |body| + 1
      ensures s[k] != ']'
    {
      assert s[k] == body[k - 1] && body[k - 1] in body;
    }
    assert CharIndex(s, ']', 1) == Some(|body| + 1) by {
      CharIndexFinds(s, ']', 1, |body| + 1);
    }
    assert s[1..|body| + 1] == body && s[|body| + 2..] == rest;
  }

  lemma {:induction false} CharIndexFinds(s: string, c: char, from: nat, j: nat)
    requires from <= j < |s| && s[j] == c && forall k :: from <= k < j ==> s[k] != c
    ensures CharIndex(s, c, from) == Some(j)
    decreases j - from
  {
    if from < j {
      CharIndexFinds(s, c, from + 1, j);
    }
  }

  /** Literal text without `[` in front of a group (or of nothing) becomes one literal segment. */
  lemma {:induction false} ParseText(lit: string, rest: string)
    requires lit != [] && '[' !in lit
    requires Parse(rest) == [] || Parse(rest)[0].Group?
    ensures Parse(lit + rest) == [Literal(lit)] + Parse(rest)
    decreases |lit|
  {
    var s := lit + rest;
    assert s[0] == lit[0] && lit[0] in lit;
    assert s[1..] == lit[1..] + rest;
    if |lit| > 1 {
      assert forall c :: c in lit[1..] ==> c in lit;
      ParseText(lit[1..], rest);
      assert [lit[0]] + lit[1..] == lit;
    } else {
      assert lit[1..] + rest == rest;
      assert [lit[0]] == lit;
    }
  }

  lemma ParseOneGroup(lit: string, opts: seq<string>)
    requires lit != [] && '[' !in lit
    requires |opts| >= 1 && forall o :: o in opts ==> '|' !in o && ']' !in o
    ensures Parse(lit + ("[" + Join(opts, '|') + "]" + "")) == [Literal(lit), Group(opts)]
  {
    var body := Join(opts, '|');
    JoinNoChar(opts, '|', ']');
    SplitJoin(opts, '|');
    ParseGroup(body, "");
    assert Parse("") == [];
    ParseText(lit, "[" + body + "]" + "");
  }

  lemma UnspinOneGroup(lit: string, opts: seq<string>)
    ensures Unspin([Literal(lit), Group(opts)]) == PrefixAll(lit, opts)
  {
    var segs := [Literal(lit), Group(opts)];
    assert segs[1..] == [Group(opts)];
    assert [Group(opts)][1..] == [];
    assert Unspin([Group(opts)]) == Choose(opts, [""]);
    ChooseSingleTail(opts);
  }

  /** Definitions of the form `text [a|b]`: one variant per option, each normalized. */
  lemma PermutationsOneGroup(lit: string, opts: seq<string>)
    requires lit != [] && '[' !in lit
    requires |opts| >= 1 && forall o :: o in opts ==> '|' !in o && ']' !in o
    ensures Permutations(JStr(lit + ("[" + Join(opts, '|') + "]" + ""))) == Ok(NormalizeAll(PrefixAll(lit, opts)))
  {
    ParseOneGroup(lit, opts);
    UnspinOneGroup(lit, opts);
  }

  lemma {:induction false} ChooseSingleTail(opts: seq<string>)
    ensures Choose(opts, [""]) == opts
    decreases |opts|
  {
    if opts != [] {
      ChooseSingleTail(opts[1..]);
      assert PrefixAll(opts[0], [""]) == [opts[0]] by {
        assert opts[0] + "" == opts[0];
      }
    }
  }

  lemma {:induction false} JoinNoChar(parts: seq<string>, d: char, c: char)
    requires c != d && forall p :: p in parts ==> c !in p
    ensures c !in Join(parts, d)
    decreases |parts|
  {
    if |parts| > 1 {
      assert parts[0] in parts;
      JoinNoChar(parts[1..], d, c);
    } else if |parts| == 1 {
      assert parts[0] in parts;
    }
  }

  /** Definitions of the form `word [a|b]` whose options are already normalized:
      the variants are the word, a space and each option, in order. */
  lemma PermutationsWordGroup(w: string, opts: seq<string>)
    requires Word(w) && '[' !in w
    requires |opts| >= 1 && forall o :: o in opts ==> '|' !in o && ']' !in o && o != [] && IsNormalized(o)
    ensures Permutations(JStr(w + " " + ("[" + Join(opts, '|') + "]" + ""))) == Ok(PrefixAll(w + " ", opts))
  {
    assert '[' !in w + " " by {
      assert forall i :: 0 <= i < |w| ==> (w + " ")[i] == w[i];
    }
    PermutationsOneGroup(w + " ", opts);
    var vs := PrefixAll(w + " ", opts);
    WordNormalized(w);
    forall i | 0 <= i < |vs|
      ensures Normalize(vs[i]) == vs[i]
    {
      assert opts[i] in opts;
      JoinNormalized(w, opts[i]);
      assert vs[i] == w + " " + opts[i];
      NormalizeFixed(vs[i]);
    }
    assert NormalizeAll(vs) == vs;
  }

  /** A one-group phrase `w [o1|o2]` whose words are all normalized gives `w o1` and `w o2`. */
  lemma PermutationsTwoOptions(s: string, w: string, o1: string, o2: string)
    requires Word(w) && '[' !in w
    requires o1 != [] && o2 != [] && IsNormalized(o1) && IsNormalized(o2)
    requires '|' !in o1 && ']' !in o1 && '|' !in o2 && ']' !in o2
    requires s == w + " " + ("[" + Join([o1, o2], '|') + "]" + "")
    ensures Permutations(JStr(s)) == Ok([w + " " + o1, w + " " + o2])
  {
    var opts := [o1, o2];
    assert forall o :: o in opts ==> o == o1 || o == o2;
    PermutationsWordGroup(w, opts);
    var vs := PrefixAll(w + " ", opts);
    assert vs[0] == w + " " + o1 && vs[1] == w + " " + o2;
    assert vs == [w + " " + o1, w + " " + o2];
  }

  lemma WasJetztNunShape(s: string)
    requires s == "Was [jetzt|nun]"
    ensures s == "Was" + " " + ("[" + Join(["jetzt", "nun"], '|') + "]" + "")
    ensures "Was" + " " + "jetzt" == "Was jetzt" && "Was" + " " + "nun" == "Was nun"
  {
    assert Join(["jetzt", "nun"], '|') == "jetzt|nun";
  }

  lemma JetztNunWords()
    ensures Word("Was") && IsNormalized("jetzt") && IsNormalized("nun")
  {
    assert Word("Was") && Word("jetzt") && Word("nun");
    WordNormalized("jetzt");
    WordNormalized("nun");
  }

  /** `"Was [jetzt|nun]"` from the German test template gives `"Was jetzt"` and `"Was nun"`. */
  lemma WasJetztNunExample(s: string)
    requires s == "Was [jetzt|nun]"
    ensures Permutations(JStr(s)) == Ok(["Was jetzt", "Was nun"])
  {
    WasJetztNunShape(s);
    JetztNunWords();
    PermutationsTwoOptions(s, "Was", "jetzt", "nun");
  }

  lemma CanIDoNormalized(t: string)
    requires t == "can I do"
    ensures IsNormalized(t) && t != [] && '|' !in t && ']' !in t
  {
    assert Word("can") && Word("I") && Word("do");
    WordNormalized("can");
    WordNormalized("I");
    WordNormalized("do");
    JoinNormalized("can", "I");
    JoinNormalized("can" + " " + "I", "do");
    assert t == "can" + " " + "I" + " " + "do";
  }

  lemma WhatNowShape(s: string)
    requires s == "What [now|can I do]"
    ensures s == "What" + " " + ("[" + Join(["now", "can I do"], '|') + "]" + "")
  {
    assert Join(["now", "can I do"], '|') == "now|can I do";
  }

  /** `"What [now|can I do]"` from the English test template gives `"What now"` and `"What can I do"`. */
  lemma WhatNowExample(s: string)
    requires s == "What [now|can I do]"
    ensures Permutations(JStr(s)) == Ok(["What now", "What can I do"])
  {
    WhatNowShape(s);
    assert Word("now");
    WordNormalized("now");
    CanIDoNormalized("can I do");
    PermutationsTwoOptions(s, "What", "now", "can I do");
    assert "What" + " " + "now" == "What now";
    assert "What" + " " + "can I do" == "What can I do";
  }
}
