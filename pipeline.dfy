/** The hook's driver: the configuration merge of `updateContextWithUserConfig`, the three
    passes of `processMagicModel`, and the loop over the build's locales that writes one
    model per locale. The configuration map lives in the build context, which is created
    once and kept across the locales. */
module Pipeline {
  import opened JsonValue
  import opened Walker
  import Resolver
  import Spintax
  import Output

  // ---------------------------------------------------------------------------
  // The configuration merge.

  /** The pairs `for (const key in v)` visits together with `v[key]`: an object's members
      in order, an array's indices, a string's character positions; nothing otherwise. */
  function ForInEntries(v: Json): (r: seq<(string, Json)>)
    ensures v.JObj? ==> |r| == |v.members| && forall i :: 0 <= i < |r| ==> r[i] == (v.members[i].name, v.members[i].value)
  {
    match v
    case JObj(ms) => seq(|ms|, i requires 0 <= i < |ms| => (ms[i].name, ms[i].value))
    case JArr(xs) => seq(|xs|, i requires 0 <= i < |xs| => (NatToString(i), xs[i]))
    case JStr(s) => seq(|s|, i requires 0 <= i < |s| => (NatToString(i), JStr([s[i]])))
    case _ => []
  }

  /** A configuration file's entries; `None` is a file that is missing or not valid JSON,
      which the source reports and skips. */
  function FileEntries(file: Option<Json>): seq<(string, Json)> {
    match file
    case None => []
    case Some(v) => ForInEntries(v)
  }

  /** The map after `map[key] = value` for each entry in turn. */
  function Overlay(m: Resolver.Config, es: seq<(string, Json)>): Resolver.Config
    decreases |es|
  {
    if es == [] then m
    else Overlay(m, es[..|es| - 1])[es[|es| - 1].0 := es[|es| - 1].1]
  }

  /** Independent reference: the value of the last entry for `k`, if any. */
  function LastValue(es: seq<(string, Json)>, k: string): Option<Json>
    decreases |es|
  {
    if es == [] then None
    else if es[|es| - 1].0 == k then Some(es[|es| - 1].1)
    else LastValue(es[..|es| - 1], k)
  }

  function Lookup(m: Resolver.Config, k: string): Option<Json> {
    if k in m then Some(m[k]) else None
  }

  /** After the loop a key holds the value of its last entry; a key with no entry keeps
      what it had. */
  lemma {:induction false} OverlayLookup(m: Resolver.Config, es: seq<(string, Json)>, k: string)
    ensures Lookup(Overlay(m, es), k) == if LastValue(es, k).Some? then LastValue(es, k) else Lookup(m, k)
    decreases |es|
  {
    if es != [] {
      OverlayLookup(m, es[..|es| - 1], k);
    }
  }

  /** Both loops of `updateContextWithUserConfig`: global entries, then locale entries. */
  function MergeConfig(config: Resolver.Config, global: Option<Json>, local: Option<Json>): Resolver.Config {
    Overlay(Overlay(config, FileEntries(global)), FileEntries(local))
  }

  /** Locale definitions win over global ones; global ones win over what the map held;
      a key neither file defines keeps its previous value (or stays absent). */
  lemma MergeConfigSpec(config: Resolver.Config, global: Option<Json>, local: Option<Json>, k: string)
    ensures Lookup(MergeConfig(config, global, local), k) ==
      if LastValue(FileEntries(local), k).Some? then LastValue(FileEntries(local), k)
      else if LastValue(FileEntries(global), k).Some? then LastValue(FileEntries(global), k)
      else Lookup(config, k)
  {
    OverlayLookup(Overlay(config, FileEntries(global)), FileEntries(local), k);
    OverlayLookup(config, FileEntries(global), k);
  }

  // ---------------------------------------------------------------------------
  // processMagicModel

  /** Two resolution walks, then the spintax walk; the first failure ends the build. */
  function ProcessModel(model: Json, config: Resolver.Config, eval: Resolver.Evaluator): Result<Json> {
    Resolver.ResolverLeavesOnly(config, eval);
    Spintax.ExploderSpec();
    var once :- Walk(model, Resolver.Resolver(config, eval));
    var twice :- Walk(once, Resolver.Resolver(config, eval));
    Walk(twice, Spintax.Exploder())
  }

  /** `processMagicModel` as the source runs it: three in-place traversals of one model. */
  method ProcessMagicModel(model: Json, config: Resolver.Config, eval: Resolver.Evaluator) returns (r: Result<Json>)
    ensures r == ProcessModel(model, config, eval)
  {
    Resolver.ResolverLeavesOnly(config, eval);
    Spintax.ExploderSpec();
    var current := model;
    var pass := Traverse(current, Resolver.Resolver(config, eval));
    if pass.Err? {
      return pass;
    }
    current := pass.value;
    pass := Traverse(current, Resolver.Resolver(config, eval));
    if pass.Err? {
      return pass;
    }
    current := pass.value;
    r := Traverse(current, Spintax.Exploder());
  }

  /** After processing, every `phrases` member anywhere in the model is a flat list of
      phrases without surrounding whitespace or runs of spaces. */
  lemma ProcessModelPhrases(model: Json, config: Resolver.Config, eval: Resolver.Evaluator)
    ensures ProcessModel(model, config, eval).Ok? ==>
      NamedSatisfy(ProcessModel(model, config, eval).value, {"phrases"}, Spintax.PhraseList)
  {
    Resolver.ResolverLeavesOnly(config, eval);
    var once := Walk(model, Resolver.Resolver(config, eval));
    if once.Ok? {
      var twice := Walk(once.value, Resolver.Resolver(config, eval));
      if twice.Ok? {
        Spintax.ExplodeWalkPhrases(twice.value);
      }
    }
  }

  // ---------------------------------------------------------------------------
  // The locale loop.

  /** What the build finds for one locale: its configuration file and its template, each
      `None` when the file is missing or not valid JSON. */
  datatype LocaleFiles = LocaleFiles(locale: string, localConfig: Option<Json>, template: Option<Json>)

  /** A model written to `path`, as the JSON value whose text is written. */
  datatype Written = Written(path: string, model: Json)

  function ModelPath(locale: string): string {
    "models/" + locale + ".json"
  }

  /** The body of the `try` after the merge: nothing is written when the template is
      missing or when processing or serialising fails. */
  function BuildLocale(config: Resolver.Config, files: LocaleFiles, eval: Resolver.Evaluator): Option<Written> {
    match files.template
    case None => None
    case Some(template) =>
      match ProcessModel(template, config, eval)
      case Err(_) => None
      case Ok(processed) =>
        match Output.Serialize(processed)
        case Err(_) => None
        case Ok(out) => Some(Written(ModelPath(files.locale), out))
  }

  function OptionToSeq<T>(o: Option<T>): seq<T> {
    match o
    case None => []
    case Some(x) => [x]
  }

  /** The loop over the locales as written: one configuration map, merged into again for
      every locale. Returns the final map and the models written, in order. */
  function RunFrom(config: Resolver.Config, global: Option<Json>, inputs: seq<LocaleFiles>, eval: Resolver.Evaluator)
    : (Resolver.Config, seq<Written>)
    decreases |inputs|
  {
    if inputs == [] then (config, [])
    else
      var merged := MergeConfig(config, global, inputs[0].localConfig);
      var rest := RunFrom(merged, global, inputs[1..], eval);
      (rest.0, OptionToSeq(BuildLocale(merged, inputs[0], eval)) + rest.1)
  }

  /** The build context of the source, reduced to the part the hook adds: the map of
      configuration values. */
  class BuildContext {
    var config: Resolver.Config

    /** `createExtendedBuildPlatformContext`: the map starts empty. */
    constructor ()
      ensures config == map[]
    {
      config := map[];
    }

    /** `updateContextWithUserConfig`: the global entries, then the locale's entries,
        each written into the map in turn. */
    method UpdateWithUserConfig(global: Option<Json>, local: Option<Json>)
      modifies this
      ensures config == MergeConfig(old(config), global, local)
    {
      var es := FileEntries(global);
      var i := 0;
      while i < |es|
        invariant 0 <= i <= |es|
        invariant config == Overlay(old(config), es[..i])
      {
        assert es[..i + 1][..i] == es[..i];
        config := config[es[i].0 := es[i].1];
        i := i + 1;
      }
      assert es[..|es|] == es;
      ghost var afterGlobal := config;
      var ls := FileEntries(local);
      i := 0;
      while i < |ls|
        invariant 0 <= i <= |ls|
        invariant config == Overlay(afterGlobal, ls[..i])
      {
        assert ls[..i + 1][..i] == ls[..i];
        config := config[ls[i].0 := ls[i].1];
        i := i + 1;
      }
      assert ls[..|ls|] == ls;
    }

    /** The rest of the `try` for one locale, under the map as it now stands. */
    method BuildAndWrite(files: LocaleFiles, eval: Resolver.Evaluator) returns (out: Option<Written>)
      ensures out == BuildLocale(config, files, eval)
    {
      out := None;
      if files.template.Some? {
        var processed := ProcessMagicModel(files.template.value, config, eval);
        if processed.Ok? {
          var serialized := Output.Serialize(processed.value);
          if serialized.Ok? {
            out := Some(Written(ModelPath(files.locale), serialized.value));
          }
        }
      }
    }

    /** `MagicModelHook`: for each locale, merge the configuration files into the shared
        map, then build and write that locale's model; a locale that fails writes
        nothing and the loop goes on. */
    method Run(global: Option<Json>, inputs: seq<LocaleFiles>, eval: Resolver.Evaluator) returns (written: seq<Written>)
      modifies this
      ensures (config, written) == RunFrom(old(config), global, inputs, eval)
    {
      ghost var start := config;
      written := [];
      var i := 0;
      RunStart(start, global, inputs, eval);
      while i < |inputs|
        invariant 0 <= i <= |inputs|
        invariant RunFrom(start, global, inputs, eval)
          == (RunFrom(config, global, inputs[i..], eval).0, written + RunFrom(config, global, inputs[i..], eval).1)
      {
        ghost var before := config;
        UpdateWithUserConfig(global, inputs[i].localConfig);
        var out := BuildAndWrite(inputs[i], eval);
        RunTurn(start, before, global, inputs, i, written, eval);
        written := written + OptionToSeq(out);
        i := i + 1;
      }
      RunEnd(start, config, global, inputs, written, eval);
    }
  }

  /** Before the loop: nothing written, every locale still to come. */
  lemma RunStart(config: Resolver.Config, global: Option<Json>, inputs: seq<LocaleFiles>, eval: Resolver.Evaluator)
    ensures RunFrom(config, global, inputs, eval)
      == (RunFrom(config, global, inputs[0..], eval).0, [] + RunFrom(config, global, inputs[0..], eval).1)
  {
    assert inputs[0..] == inputs;
    assert [] + RunFrom(config, global, inputs, eval).1 == RunFrom(config, global, inputs, eval).1;
  }

  /** One turn keeps the loop's invariant. */
  lemma RunTurn(start: Resolver.Config, before: Resolver.Config, global: Option<Json>, inputs: seq<LocaleFiles>,
                i: nat, written: seq<Written>, eval: Resolver.Evaluator)
    requires i < |inputs|
    requires RunFrom(start, global, inputs, eval)
      == (RunFrom(before, global, inputs[i..], eval).0, written + RunFrom(before, global, inputs[i..], eval).1)
    ensures var merged := MergeConfig(before, global, inputs[i].localConfig);
      RunFrom(start, global, inputs, eval)
        == (RunFrom(merged, global, inputs[i + 1..], eval).0,
            written + OptionToSeq(BuildLocale(merged, inputs[i], eval)) + RunFrom(merged, global, inputs[i + 1..], eval).1)
  {
    var merged := MergeConfig(before, global, inputs[i].localConfig);
    RunFromStep(before, global, inputs, i, eval);
    var head := OptionToSeq(BuildLocale(merged, inputs[i], eval));
    var rest := RunFrom(merged, global, inputs[i + 1..], eval).1;
    assert written + (head + rest) == written + head + rest;
  }

  /** After the loop: the map and the models written are those of the whole run. */
  lemma RunEnd(start: Resolver.Config, config: Resolver.Config, global: Option<Json>, inputs: seq<LocaleFiles>,
               written: seq<Written>, eval: Resolver.Evaluator)
    requires RunFrom(start, global, inputs, eval)
      == (RunFrom(config, global, inputs[|inputs|..], eval).0, written + RunFrom(config, global, inputs[|inputs|..], eval).1)
    ensures (config, written) == RunFrom(start, global, inputs, eval)
  {
    assert inputs[|inputs|..] == [];
    assert written + [] == written;
  }

  /** One turn of the loop: the locale at `i` is merged and built, then the rest follow. */
  lemma RunFromStep(config: Resolver.Config, global: Option<Json>, inputs: seq<LocaleFiles>, i: nat, eval: Resolver.Evaluator)
    requires i < |inputs|
    ensures RunFrom(config, global, inputs[i..], eval)
      == (RunFrom(MergeConfig(config, global, inputs[i].localConfig), global, inputs[i + 1..], eval).0,
          OptionToSeq(BuildLocale(MergeConfig(config, global, inputs[i].localConfig), inputs[i], eval))
          + RunFrom(MergeConfig(config, global, inputs[i].localConfig), global, inputs[i + 1..], eval).1)
  {
    var tail := inputs[i..];
    assert tail[0] == inputs[i] && tail[1..] == inputs[i + 1..];
  }

  // ---------------------------------------------------------------------------
  // What the loop promises.

  /** No more models are written than there are locales, and each is written to the
      path of a locale whose template was there. */
  lemma {:induction false} RunWritesPresent(config: Resolver.Config, global: Option<Json>, inputs: seq<LocaleFiles>, eval: Resolver.Evaluator)
    ensures |RunFrom(config, global, inputs, eval).1| <= |inputs|
    ensures forall w :: w in RunFrom(config, global, inputs, eval).1 ==>
      exists i :: 0 <= i < |inputs| && inputs[i].template.Some? && w.path == ModelPath(inputs[i].locale)
    decreases |inputs|
  {
    if inputs != [] {
      var merged := MergeConfig(config, global, inputs[0].localConfig);
      RunWritesPresent(merged, global, inputs[1..], eval);
      var head := OptionToSeq(BuildLocale(merged, inputs[0], eval));
      var rest := RunFrom(merged, global, inputs[1..], eval).1;
      forall w: Written | w in head + rest
        ensures exists i :: 0 <= i < |inputs| && inputs[i].template.Some? && w.path == ModelPath(inputs[i].locale)
      {
        if w in head {
          assert inputs[0].template.Some? && w.path == ModelPath(inputs[0].locale);
        } else {
          var j :| 0 <= j < |inputs[1..]| && inputs[1..][j].template.Some? && w.path == ModelPath(inputs[1..][j].locale);
          assert inputs[j + 1] == inputs[1..][j];
        }
      }
    }
  }

  /** Every model written has clean `phrases`, `values` and `synonyms` lists everywhere:
      sorted, without blank entries and without a primitive value twice. */
  lemma {:induction false} RunWritesCleanLists(config: Resolver.Config, global: Option<Json>, inputs: seq<LocaleFiles>, eval: Resolver.Evaluator)
    ensures forall w :: w in RunFrom(config, global, inputs, eval).1 ==>
      NamedSatisfy(w.model, Output.ListKeys, Output.IsCleanArray)
    decreases |inputs|
  {
    if inputs != [] {
      var merged := MergeConfig(config, global, inputs[0].localConfig);
      RunWritesCleanLists(merged, global, inputs[1..], eval);
      var out := BuildLocale(merged, inputs[0], eval);
      if out.Some? {
        var processed := ProcessModel(inputs[0].template.value, merged, eval).value;
        Output.StringifyClean(Name(""), processed);
      }
    }
  }

  // ---------------------------------------------------------------------------
  // The loop locale by locale.

  /** The shared map after the first `i` locales have been merged into it. */
  function ConfigAt(config: Resolver.Config, global: Option<Json>, inputs: seq<LocaleFiles>, i: nat): Resolver.Config
    requires i <= |inputs|
    decreases i
  {
    if i == 0 then config
    else MergeConfig(ConfigAt(config, global, inputs, i - 1), global, inputs[i - 1].localConfig)
  }

  /** What locale `i` writes: its model built under the map holding every merge up to
      and including its own, or nothing. */
  function Emits(config: Resolver.Config, global: Option<Json>, inputs: seq<LocaleFiles>, eval: Resolver.Evaluator, i: nat)
    : seq<Written>
    requires i < |inputs|
  {
    OptionToSeq(BuildLocale(ConfigAt(config, global, inputs, i + 1), inputs[i], eval))
  }

  /** What every locale writes, one entry per locale. */
  function AllEmits(config: Resolver.Config, global: Option<Json>, inputs: seq<LocaleFiles>, eval: Resolver.Evaluator)
    : (r: seq<seq<Written>>)
    ensures |r| == |inputs| && forall i :: 0 <= i < |inputs| ==> r[i] == Emits(config, global, inputs, eval, i)
  {
    seq(|inputs|, i requires 0 <= i < |inputs| => Emits(config, global, inputs, eval, i))
  }

  /** The entries of `parts` from `i` on, concatenated in order. */
  function ConcatFrom<T>(parts: seq<seq<T>>, i: nat): seq<T>
    requires i <= |parts|
    decreases |parts| - i
  {
    if i == |parts| then [] else parts[i] + ConcatFrom(parts, i + 1)
  }

  lemma {:induction false} ConcatFromIncludes<T>(parts: seq<seq<T>>, j: nat, i: nat, w: T)
    requires j <= i < |parts| && w in parts[i]
    ensures w in ConcatFrom(parts, j)
    decreases i - j
  {
    if j < i {
      ConcatFromIncludes(parts, j + 1, i, w);
    }
  }

  /** Independent reference, indexed from the start: what the locales from `i` on write,
      in locale order. */
  function EmitsFrom(config: Resolver.Config, global: Option<Json>, inputs: seq<LocaleFiles>, eval: Resolver.Evaluator, i: nat)
    : seq<Written>
    requires i <= |inputs|
  {
    ConcatFrom(AllEmits(config, global, inputs, eval), i)
  }

  /** The loop from locale `i` on, started from the map it has reached there. */
  lemma {:induction false} RunFromSuffix(config: Resolver.Config, global: Option<Json>, inputs: seq<LocaleFiles>, eval: Resolver.Evaluator, i: nat)
    requires i <= |inputs|
    ensures RunFrom(ConfigAt(config, global, inputs, i), global, inputs[i..], eval)
      == (ConfigAt(config, global, inputs, |inputs|), EmitsFrom(config, global, inputs, eval, i))
    decreases |inputs| - i
  {
    if i < |inputs| {
      RunFromSuffix(config, global, inputs, eval, i + 1);
      RunFromStep(ConfigAt(config, global, inputs, i), global, inputs, i, eval);
    } else {
      assert inputs[i..] == [];
    }
  }

  /** The loop writes, in locale order, at most one model per locale: locale `i`'s model
      built under the map holding the merges of locales `0..i`. It ends with the map
      holding every locale's merge. */
  lemma RunWritesEachLocale(config: Resolver.Config, global: Option<Json>, inputs: seq<LocaleFiles>, eval: Resolver.Evaluator)
    ensures RunFrom(config, global, inputs, eval)
      == (ConfigAt(config, global, inputs, |inputs|), EmitsFrom(config, global, inputs, eval, 0))
  {
    assert inputs[0..] == inputs;
    RunFromSuffix(config, global, inputs, eval, 0);
  }

  /** A locale whose model builds under the map it sees is written, whatever the other
      locales do. */
  lemma RunWritesBuiltLocale(config: Resolver.Config, global: Option<Json>, inputs: seq<LocaleFiles>, eval: Resolver.Evaluator, i: nat)
    requires i < |inputs|
    requires BuildLocale(ConfigAt(config, global, inputs, i + 1), inputs[i], eval).Some?
    ensures BuildLocale(ConfigAt(config, global, inputs, i + 1), inputs[i], eval).value in RunFrom(config, global, inputs, eval).1
  {
    var w := BuildLocale(ConfigAt(config, global, inputs, i + 1), inputs[i], eval).value;
    var parts := AllEmits(config, global, inputs, eval);
    assert parts[i] == [w];
    RunWritesEachLocale(config, global, inputs, eval);
    ConcatFromIncludes(parts, 0, i, w);
  }

  // ---------------------------------------------------------------------------
  // Finding: the configuration map is shared by all locales.

  /** The intended loop: each locale starts from an empty map, so a locale's model
      depends on the global file and its own files only. */
  function RunIsolated(global: Option<Json>, inputs: seq<LocaleFiles>, eval: Resolver.Evaluator): seq<Written>
    decreases |inputs|
  {
    if inputs == [] then []
    else
      OptionToSeq(BuildLocale(MergeConfig(map[], global, inputs[0].localConfig), inputs[0], eval))
      + RunIsolated(global, inputs[1..], eval)
  }

  lemma WrittenAssoc(x: seq<Written>, y: seq<Written>, z: seq<Written>)
    ensures x + (y + z) == x + y + z
  {
  }

  /** With isolated maps, what is written for a list of locales is what is written for
      each part of it alone: no locale sees another's configuration. */
  lemma {:induction false} RunIsolatedAppend(global: Option<Json>, a: seq<LocaleFiles>, b: seq<LocaleFiles>, eval: Resolver.Evaluator)
    ensures RunIsolated(global, a + b, eval) == RunIsolated(global, a, eval) + RunIsolated(global, b, eval)
    decreases |a|
  {
    if a == [] {
      assert a + b == b;
    } else {
      assert (a + b)[0] == a[0] && (a + b)[1..] == a[1..] + b;
      RunIsolatedAppend(global, a[1..], b, eval);
      IsolatedAppendStep(global, a, b, eval);
    }
  }

  lemma IsolatedAppendStep(global: Option<Json>, a: seq<LocaleFiles>, b: seq<LocaleFiles>, eval: Resolver.Evaluator)
    requires a != [] && (a + b)[0] == a[0] && (a + b)[1..] == a[1..] + b
    requires RunIsolated(global, a[1..] + b, eval) == RunIsolated(global, a[1..], eval) + RunIsolated(global, b, eval)
    ensures RunIsolated(global, a + b, eval) == RunIsolated(global, a, eval) + RunIsolated(global, b, eval)
  {
    var h := OptionToSeq(BuildLocale(MergeConfig(map[], global, a[0].localConfig), a[0], eval));
    WrittenAssoc(h, RunIsolated(global, a[1..], eval), RunIsolated(global, b, eval));
  }

  /** As written, a key that only an earlier locale's file defines is still in the map
      when a later locale's model is built. */
  lemma LocaleConfigLeaks(config: Resolver.Config, global: Option<Json>, first: LocaleFiles, second: LocaleFiles, k: string)
    requires LastValue(FileEntries(first.localConfig), k).Some?
    requires LastValue(FileEntries(global), k).None? && LastValue(FileEntries(second.localConfig), k).None?
    ensures var seen := MergeConfig(MergeConfig(config, global, first.localConfig), global, second.localConfig);
      Lookup(seen, k) == LastValue(FileEntries(first.localConfig), k)
    ensures Lookup(MergeConfig(map[], global, second.localConfig), k).None?
  {
    var afterFirst := MergeConfig(config, global, first.localConfig);
    MergeConfigSpec(config, global, first.localConfig, k);
    MergeConfigSpec(afterFirst, global, second.localConfig, k);
    MergeConfigSpec(map[], global, second.localConfig, k);
  }

  // ---------------------------------------------------------------------------
  // Single-leaf templates, worked through.

  /** A walk over an object with one scalar member applies the processor to that member only. */
  lemma WalkOneLeaf(name: string, v: Json, p: Processor)
    requires NonDeepening(p) && !IsContainer(v)
    ensures Walk(JObj([Member(name, v)]), p)
      == match p(Name(name), v) case Ok(w) => Ok(JObj([Member(name, w)])) case Err(e) => Err(e)
  {
    var ms := [Member(name, v)];
    var bound := Depth(JObj(ms));
    assert ms[0] == Member(name, v) && ms[1..] == [];
    MemberDepthBound(ms, 0);
    assert Visit(Name(name), v, p, bound) == p(Name(name), v);
    assert WalkMembers(ms[1..], p, bound) == Ok([]);
    match p(Name(name), v)
    case Ok(w) =>
      assert [Member(name, w)] + [] == [Member(name, w)];
      assert WalkMembers(ms, p, bound) == Ok([Member(name, w)]);
    case Err(e) =>
  }

  /** A one-member template outside `phrases` goes through the two resolution passes only. */
  lemma ProcessLeaf(name: string, s: string, t1: string, t2: string, config: Resolver.Config, eval: Resolver.Evaluator)
    requires name != "phrases"
    requires Resolver.Resolve(Name(name), JStr(s), config, eval) == Ok(JStr(t1))
    requires Resolver.Resolve(Name(name), JStr(t1), config, eval) == Ok(JStr(t2))
    ensures ProcessModel(JObj([Member(name, JStr(s))]), config, eval) == Ok(JObj([Member(name, JStr(t2))]))
  {
    Resolver.ResolverLeavesOnly(config, eval);
    Spintax.ExploderSpec();
    WalkOneLeaf(name, JStr(s), Resolver.Resolver(config, eval));
    WalkOneLeaf(name, JStr(t1), Resolver.Resolver(config, eval));
    var done := JObj([Member(name, JStr(t2))]);
    assert NoMemberNamed(done, {"phrases"}) by {
      assert [Member(name, JStr(t2))][1..] == [];
    }
    WalkUntouched(done, Spintax.Exploder(), {"phrases"});
  }

  /** A one-member model outside the list keys is written as it is. */
  lemma WriteLeaf(name: string, t: string)
    requires !Output.IsListKey(name)
    ensures Output.Serialize(JObj([Member(name, JStr(t))])) == Ok(JObj([Member(name, JStr(t))]))
  {
    var ms := [Member(name, JStr(t))];
    assert ms[1..] == [];
    assert NoMemberNamed(JObj(ms), Output.ListKeys);
    assert Output.Defined(JObj(ms));
    Output.StringifyPlain(Name(""), JObj(ms));
  }

  /** Why the source walks twice: a placeholder whose configured value is itself a
      placeholder is resolved by the second pass, and one pass would leave it. */
  lemma TwoPassExample(x: string, y: string, eval: Resolver.Evaluator)
    requires x == "${" + "X" + "}" && y == "${" + "Y" + "}"
    ensures var config := map["X" := JStr(y), "Y" := JStr("done")];
      && Walk(JObj([Member("a", JStr(x))]), Resolver.Resolver(config, eval)) == Ok(JObj([Member("a", JStr(y))]))
      && ProcessModel(JObj([Member("a", JStr(x))]), config, eval) == Ok(JObj([Member("a", JStr("done"))]))
  {
    var config := map["X" := JStr(y), "Y" := JStr("done")];
    Resolver.WholeMatchKeyIff(x, config, "X");
    Resolver.WholeMatchKeyIff(y, config, "Y");
    Resolver.ResolverLeavesOnly(config, eval);
    WalkOneLeaf("a", JStr(x), Resolver.Resolver(config, eval));
    ProcessLeaf("a", x, y, "done", config, eval);
  }

  // ---------------------------------------------------------------------------
  // The shared map, worked through.

  /** Locale files of the example: "de" defines `Dessert` in its own configuration and
      has no template; "en" has no configuration of its own and a template using it. */
  function DessertFiles(): LocaleFiles {
    LocaleFiles("de", Some(JObj([Member("Dessert", JStr("Käsekuchen"))])), None)
  }

  function EnglishFiles(s: string): LocaleFiles {
    LocaleFiles("en", None, Some(JObj([Member("x", JStr(s))])))
  }

  lemma DessertConfig()
    ensures MergeConfig(map[], None, DessertFiles().localConfig) == map["Dessert" := JStr("Käsekuchen")]
  {
    var es := FileEntries(DessertFiles().localConfig);
    assert es == [("Dessert", JStr("Käsekuchen"))];
    assert es[..0] == [];
  }

  /** As written: built after "de", the "en" template sees de's `Dessert`. */
  lemma SharedMapExample(s: string, eval: Resolver.Evaluator)
    requires s == "${" + "Dessert" + "}"
    ensures RunFrom(map[], None, [DessertFiles(), EnglishFiles(s)], eval).1
      == [Written(ModelPath("en"), JObj([Member("x", JStr("Käsekuchen"))]))]
  {
    var config := map["Dessert" := JStr("Käsekuchen")];
    DessertConfig();
    assert MergeConfig(config, None, None) == config;
    Resolver.WholeMatchKeyIff(s, config, "Dessert");
    assert !Resolver.HasPlaceholderStart("Käsekuchen");
    Resolver.ResolveNoPlaceholder(Name("x"), "Käsekuchen", config, eval);
    ProcessLeaf("x", s, "Käsekuchen", "Käsekuchen", config, eval);
    WriteLeaf("x", "Käsekuchen");
    var written := Written(ModelPath("en"), JObj([Member("x", JStr("Käsekuchen"))]));
    assert BuildLocale(config, EnglishFiles(s), eval) == Some(written);
    var inputs := [DessertFiles(), EnglishFiles(s)];
    assert inputs[1..] == [EnglishFiles(s)] && inputs[1..][1..] == [];
    assert RunFrom(config, None, inputs[1..], eval).1 == [written] + [];
    assert BuildLocale(config, DessertFiles(), eval).None?;
  }

  /** `${Dessert}` where `Dessert` is no key: the evaluator's text takes its place. */
  lemma UnknownKeyResolves(s: string, t: string, eval: Resolver.Evaluator)
    requires s == "${" + "Dessert" + "}"
    requires eval("Dessert", map[]) == Some(t) && '$' !in t
    ensures Resolver.Resolve(Name("x"), JStr(s), map[], eval) == Ok(JStr(t))
  {
    var e := "Dessert";
    assert Resolver.PlainExpression(e);
    Resolver.ResolveLonePlaceholder(Name("x"), e, t, map[], eval);
  }

  /** Intended: "en" built on its own configuration, where `Dessert` is no key and the
      expression evaluator (given here as JEXL's `undefined` for an unknown name) decides. */
  lemma IsolatedMapExample(s: string, eval: Resolver.Evaluator)
    requires s == "${" + "Dessert" + "}"
    requires eval("Dessert", map[]) == Some("undefined")
    ensures RunIsolated(None, [DessertFiles(), EnglishFiles(s)], eval)
      == [Written(ModelPath("en"), JObj([Member("x", JStr("undefined"))]))]
  {
    var config: Resolver.Config := map[];
    assert MergeConfig(config, None, None) == config;
    assert '$' !in "undefined" && !Resolver.HasPlaceholderStart("undefined");
    UnknownKeyResolves(s, "undefined", eval);
    Resolver.ResolveNoPlaceholder(Name("x"), "undefined", config, eval);
    ProcessLeaf("x", s, "undefined", "undefined", config, eval);
    WriteLeaf("x", "undefined");
    var written := Written(ModelPath("en"), JObj([Member("x", JStr("undefined"))]));
    assert BuildLocale(config, EnglishFiles(s), eval) == Some(written);
    var inputs := [DessertFiles(), EnglishFiles(s)];
    assert inputs[1..] == [EnglishFiles(s)] && inputs[1..][1..] == [];
    assert RunIsolated(None, inputs[1..], eval) == [written] + [];
  }
}
