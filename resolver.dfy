/** `doJexl`: resolves `${...}` placeholders in a string leaf against the configuration
    mapping. A string that is exactly `${K}` for a configuration key K becomes the raw
    configuration value (keeping its type); any other string has each match of the
    regular expression `/\${(.+?)}/g` in the ORIGINAL string evaluated, and the first
    occurrence of the matched text in the text built so far replaced by the result. */
module Resolver {
  import opened JsonValue
  import opened Text
  import opened Walker

  /** `magicModelConfig`: configuration key to the value the configuration files gave it. */
  type Config = map<string, Json>

  /** `JEXL.evalSync(expr, config)` as the text `String.prototype.replace` substitutes for
      it; `None` when evaluation throws. The expression language itself is foreign code. */
  type Evaluator = (string, Config) -> Option<string>

  // ---------------------------------------------------------------------------
  // Whole-match rule.

  /** The configuration key K for which `s` is exactly `${K}`, if any. */
  function WholeMatchKey(s: string, config: Config): (r: Option<string>)
    ensures r.Some? ==> r.value in config && s == "${" + r.value + "}"
  {
    if |s| >= 3 && s[..2] == "${" && s[|s| - 1] == '}' && s[2..|s| - 1] in config
    then
      assert s == "${" + s[2..|s| - 1] + "}";
      Some(s[2..|s| - 1])
    else None
  }

  /** The whole-match rule fires exactly for strings of the form `${K}` with K a key. */
  lemma WholeMatchKeyIff(s: string, config: Config, k: string)
    ensures WholeMatchKey(s, config) == Some(k) <==> (k in config && s == "${" + k + "}")
  {
    if k in config && s == "${" + k + "}" {
      assert s[..2] == "${" && s[2..|s| - 1] == k;
    }
  }

  // ---------------------------------------------------------------------------
  // The regular expression /\${(.+?)}/g.

  /** Lazy scan for the closing brace: the first `}` at or after `k`, provided no line
      terminator comes before it (`.` does not match one). */
  function CloseFrom(s: string, k: nat): (r: Option<nat>)
    ensures r.Some? ==> k <= r.value < |s| && s[r.value] == '}'
    decreases |s| - k
  {
    if k >= |s| then None
    else if s[k] == '}' then Some(k)
    else if IsLineTerminator(s[k]) then None
    else CloseFrom(s, k + 1)
  }

  lemma {:induction false} CloseFromFinds(s: string, k: nat, j: nat)
    requires k <= j < |s| && s[j] == '}'
    requires forall m :: k <= m < j ==> s[m] != '}' && !IsLineTerminator(s[m])
    ensures CloseFrom(s, k) == Some(j)
    decreases j - k
  {
    if k < j {
      CloseFromFinds(s, k + 1, j);
    }
  }

  /** The scan finds the first `}` when no line terminator comes before it, and finds
      nothing exactly when every `}` after `k` has a line terminator before it. */
  lemma {:induction false} CloseFromSpec(s: string, k: nat)
    ensures CloseFrom(s, k).Some? ==>
      forall m :: k <= m < CloseFrom(s, k).value ==> s[m] != '}' && !IsLineTerminator(s[m])
    ensures CloseFrom(s, k).None? <==>
      forall j :: k <= j < |s| && s[j] == '}' ==> exists m :: k <= m < j && IsLineTerminator(s[m])
    decreases |s| - k
  {
    if k < |s| && s[k] != '}' && !IsLineTerminator(s[k]) {
      CloseFromSpec(s, k + 1);
      if CloseFrom(s, k).None? {
        forall j | k <= j < |s| && s[j] == '}'
          ensures exists m :: k <= m < j && IsLineTerminator(s[m])
        {
          var m :| k + 1 <= m < j && IsLineTerminator(s[m]);
        }
      }
    } else if k < |s| && IsLineTerminator(s[k]) && s[k] != '}' {
      forall j | k <= j < |s| && s[j] == '}'
        ensures exists m :: k <= m < j && IsLineTerminator(s[m])
      {
        assert k < j && IsLineTerminator(s[k]);
      }
    }
  }

  /** End of the match that starts at `i`, if the expression matches there:
      `${`, then at least one character, lazily up to the first `}`. */
  function MatchAt(s: string, i: nat): (r: Option<nat>)
    ensures r.Some? ==> i + 4 <= r.value <= |s|
  {
    if i + 2 < |s| && s[i] == '$' && s[i + 1] == '{' && !IsLineTerminator(s[i + 2]) then
      match CloseFrom(s, i + 3)
      case Some(j) => Some(j + 1)
      case None => None
    else None
  }

  datatype Match = Match(start: nat, end: nat)

  /** `matches[0]`, the matched text. */
  function Whole(s: string, m: Match): string
    requires m.start <= m.end <= |s|
  {
    s[m.start..m.end]
  }

  /** `matches[1]`, the text between `${` and `}`. */
  function Inner(s: string, m: Match): string
    requires m.start + 3 <= m.end <= |s|
  {
    s[m.start + 2..m.end - 1]
  }

  /** `regEx.exec(value)` with `lastIndex` at `from`: the leftmost match at or after it. */
  function FindMatch(s: string, from: nat): (r: Option<Match>)
    ensures r.Some? ==> from <= r.value.start && r.value.start + 4 <= r.value.end <= |s|
    decreases |s| - from
  {
    if from >= |s| then None
    else match MatchAt(s, from)
      case Some(e) => Some(Match(from, e))
      case None => FindMatch(s, from + 1)
  }

  /** The match found is the leftmost one at or after `from`. */
  lemma {:induction false} FindMatchSpec(s: string, from: nat)
    ensures FindMatch(s, from).Some? ==> MatchAt(s, FindMatch(s, from).value.start) == Some(FindMatch(s, from).value.end)
    ensures FindMatch(s, from).Some? ==> forall i :: from <= i < FindMatch(s, from).value.start ==> MatchAt(s, i).None?
    ensures FindMatch(s, from).None? ==> forall i :: from <= i ==> MatchAt(s, i).None?
    decreases |s| - from
  {
    if from < |s| && MatchAt(s, from).None? {
      FindMatchSpec(s, from + 1);
    }
  }

  /** All matches the `while` loop visits, in order. */
  function Matches(s: string, from: nat): seq<Match>
    decreases |s| - from
  {
    match FindMatch(s, from)
    case None => []
    case Some(m) => [m] + Matches(s, m.end)
  }

  predicate HasPlaceholderStart(s: string) {
    exists i :: 0 <= i < |s| - 1 && s[i] == '$' && s[i + 1] == '{'
  }

  // ---------------------------------------------------------------------------
  // Embedded rule.

  /** The loop of lines 213-225 from the match after `from` on, with `text` built so far. */
  function SubstituteFrom(s: string, text: string, from: nat, config: Config, eval: Evaluator): Result<string>
    decreases |s| - from
  {
    match FindMatch(s, from)
    case None => Ok(text)
    case Some(m) =>
      match eval(Inner(s, m), config)
      case None => Err(EvalFailed(Inner(s, m)))
      case Some(t) => SubstituteFrom(s, ReplaceFirst(text, Whole(s, m), t), m.end, config, eval)
  }

  /** `doJexl(key, value, context)` as a function: the processor of the two resolution passes. */
  function Resolve(key: Key, value: Json, config: Config, eval: Evaluator): Result<Json> {
    if !value.JStr? then Ok(value)
    else match WholeMatchKey(value.str, config)
      case Some(k) => Ok(config[k])
      case None =>
        var t :- SubstituteFrom(value.str, value.str, 0, config, eval);
        Ok(JStr(t))
  }

  /** `doJexl` as the source runs it: the search for a whole match, then the `exec` loop. */
  method DoJexl(key: Key, value: Json, config: Config, eval: Evaluator) returns (r: Result<Json>)
    ensures r == Resolve(key, value, config, eval)
  {
    if !value.JStr? {
      return Ok(value);
    }
    var s := value.str;
    var whole := WholeMatchKey(s, config);
    if whole.Some? {
      return Ok(config[whole.value]);
    }
    var newText := s;
    var matches := FindMatch(s, 0);
    ghost var lastIndex := 0;
    while matches.Some?
      invariant matches == FindMatch(s, lastIndex)
      invariant SubstituteFrom(s, s, 0, config, eval) ==
        (match matches
         case None => Ok(newText)
         case Some(m) =>
           match eval(Inner(s, m), config)
           case None => Err(EvalFailed(Inner(s, m)))
           case Some(t) => SubstituteFrom(s, ReplaceFirst(newText, Whole(s, m), t), m.end, config, eval))
      decreases if matches.Some? then |s| - matches.value.start else 0
    {
      var m := matches.value;
      var result := eval(Inner(s, m), config);
      if result.None? {
        return Err(EvalFailed(Inner(s, m)));
      }
      newText := ReplaceFirst(newText, Whole(s, m), result.value);
      lastIndex := m.end;
      matches := FindMatch(s, m.end);
    }
    return Ok(JStr(newText));
  }

  /** The resolver as a walker processor, the context bound. */
  function Resolver(config: Config, eval: Evaluator): Processor {
    (k, v) => Resolve(k, v, config, eval)
  }

  /** Containers pass through the resolver untouched, so a resolution walk rewrites leaves only. */
  lemma ResolverLeavesOnly(config: Config, eval: Evaluator)
    ensures LeavesOnly(Resolver(config, eval)) && NonDeepening(Resolver(config, eval))
  {
    LeavesOnlyNonDeepening(Resolver(config, eval));
  }

  // ---------------------------------------------------------------------------
  // What the resolver promises.

  /** Non-strings pass through; `${K}` for a configuration key K yields the raw value of K,
      whatever its type (text, array, number). */
  lemma ResolveWholeMatch(key: Key, value: Json, config: Config, eval: Evaluator)
    ensures !value.JStr? ==> Resolve(key, value, config, eval) == Ok(value)
    ensures forall k :: k in config && value == JStr("${" + k + "}") ==> Resolve(key, value, config, eval) == Ok(config[k])
  {
    forall k | k in config && value == JStr("${" + k + "}")
      ensures Resolve(key, value, config, eval) == Ok(config[k])
    {
      WholeMatchKeyIff(value.str, config, k);
    }
  }

  /** A string with no `${` anywhere is returned unchanged, and nothing is evaluated. */
  lemma {:induction false} ResolveNoPlaceholder(key: Key, s: string, config: Config, eval: Evaluator)
    requires !HasPlaceholderStart(s)
    ensures Resolve(key, JStr(s), config, eval) == Ok(JStr(s))
  {
    assert forall i :: MatchAt(s, i).None?;
    FindMatchNone(s, 0);
    if |s| >= 3 {
      assert !(s[0] == '$' && s[1] == '{');
      assert s[..2] != "${";
    }
  }

  /** The evaluation of the expression inside match `m` fails. */
  predicate FailsAt(s: string, m: Match, config: Config, eval: Evaluator) {
    m.start + 3 <= m.end <= |s| && eval(Inner(s, m), config).None?
  }

  lemma FailsCons(s: string, m: Match, rest: seq<Match>, config: Config, eval: Evaluator)
    ensures (exists i :: 0 <= i < |[m] + rest| && FailsAt(s, ([m] + rest)[i], config, eval))
      <==> FailsAt(s, m, config, eval) || exists i :: 0 <= i < |rest| && FailsAt(s, rest[i], config, eval)
  {
    var ms := [m] + rest;
    assert ms[0] == m;
    if exists i :: 0 <= i < |rest| && FailsAt(s, rest[i], config, eval) {
      var i :| 0 <= i < |rest| && FailsAt(s, rest[i], config, eval);
      assert ms[i + 1] == rest[i];
    }
    if exists i :: 0 <= i < |ms| && FailsAt(s, ms[i], config, eval) {
      var i :| 0 <= i < |ms| && FailsAt(s, ms[i], config, eval);
      if i > 0 {
        assert rest[i - 1] == ms[i];
      }
    }
    if FailsAt(s, m, config, eval) {
      assert 0 < |ms| && FailsAt(s, ms[0], config, eval);
    }
  }

  /** Resolution fails exactly when the evaluation of one of the visited matches fails. */
  lemma {:induction false} SubstituteFailsIff(s: string, text: string, from: nat, config: Config, eval: Evaluator)
    ensures SubstituteFrom(s, text, from, config, eval).Err?
      <==> exists i :: 0 <= i < |Matches(s, from)| && FailsAt(s, Matches(s, from)[i], config, eval)
    decreases |s| - from
  {
    match FindMatch(s, from)
    case None =>
      assert Matches(s, from) == [];
      assert SubstituteFrom(s, text, from, config, eval) == Ok(text);
    case Some(m) =>
      var rest := Matches(s, m.end);
      assert Matches(s, from) == [m] + rest;
      FailsCons(s, m, rest, config, eval);
      match eval(Inner(s, m), config)
      case None =>
        assert FailsAt(s, m, config, eval);
      case Some(t) =>
        assert !FailsAt(s, m, config, eval);
        var text' := ReplaceFirst(text, Whole(s, m), t);
        assert SubstituteFrom(s, text, from, config, eval) == SubstituteFrom(s, text', m.end, config, eval);
        SubstituteFailsIff(s, text', m.end, config, eval);
  }

  /** Every `$` of `s` begins one of the matches found left to right, and no evaluated
      text contains a `$`. */
  predicate NoStrayDollar(s: string, config: Config, eval: Evaluator)
    decreases |s|
  {
    match FindMatch(s, 0)
    case None => '$' !in s
    case Some(m) =>
      && '$' !in s[..m.start]
      && match eval(Inner(s, m), config)
         case None => true
         case Some(t) => '$' !in t && NoStrayDollar(s[m.end..], config, eval)
  }

  /** Independent reference: every match replaced in place, left to right, by its text. */
  function Splice(s: string, config: Config, eval: Evaluator): Result<string>
    decreases |s|
  {
    match FindMatch(s, 0)
    case None => Ok(s)
    case Some(m) =>
      match eval(Inner(s, m), config)
      case None => Err(EvalFailed(Inner(s, m)))
      case Some(t) =>
        var rest :- Splice(s[m.end..], config, eval);
        Ok(s[..m.start] + t + rest)
  }

  /** Both definitions unfolded at the first match, when its expression evaluates to `t`. */
  lemma SpliceUnfold(s: string, m: Match, t: string, config: Config, eval: Evaluator)
    requires FindMatch(s, 0) == Some(m) && eval(Inner(s, m), config) == Some(t)
    ensures Splice(s, config, eval) == Prepend(s[..m.start] + t, Splice(s[m.end..], config, eval))
    ensures NoStrayDollar(s, config, eval)
      == ('$' !in s[..m.start] && '$' !in t && NoStrayDollar(s[m.end..], config, eval))
  {
    var rest := Splice(s[m.end..], config, eval);
    if rest.Ok? {
      assert Splice(s, config, eval) == Ok(s[..m.start] + t + rest.value);
    }
  }

  /** A pattern that begins with `$`, found where no `$` precedes it, is the first occurrence. */
  lemma ReplaceAtFirstDollar(text: string, pat: string, rep: string, at: nat)
    requires OccursAt(text, pat, at) && |pat| > 0 && pat[0] == '$' && '$' !in text[..at]
    ensures ReplaceFirst(text, pat, rep) == text[..at] + rep + text[at + |pat|..]
  {
    forall k: nat | k < at
      ensures !OccursAt(text, pat, k)
    {
      assert text[..at][k] == text[k];
    }
    ReplaceFirstSpec(text, pat, rep);
  }

  /** One turn of the loop when no `$` precedes the match in the text built so far. */
  lemma SubstituteStep(s: string, done: string, from: nat, m: Match, t: string, config: Config, eval: Evaluator)
    requires from <= |s| && '$' !in done && FindMatch(s, from) == Some(m)
    requires '$' !in s[from..m.start] && eval(Inner(s, m), config) == Some(t)
    ensures SubstituteFrom(s, done + s[from..], from, config, eval)
      == SubstituteFrom(s, done + s[from..m.start] + t + s[m.end..], m.end, config, eval)
  {
    var text := done + s[from..];
    var pat := Whole(s, m);
    var at := |done| + (m.start - from);
    assert pat[0] == '$' by {
      FindMatchSpec(s, from);
    }
    assert text[..at] == done + s[from..m.start];
    assert text[at..] == s[m.start..];
    assert OccursAt(text, pat, at);
    ReplaceAtFirstDollar(text, pat, t, at);
    assert text[at + |pat|..] == s[m.end..];
  }

  /** Where `t` is the text of `s` from `n` on, the first match of `t` is the match found
      in `s` from `n`, moved by `n`. */
  lemma AgreeMatch(s: string, n: nat, t: string, m: Match)
    requires Agree(s, n, t) && FindMatch(t, 0) == Some(m)
    ensures FindMatch(s, n) == Some(Match(n + m.start, n + m.end))
  {
    FindMatchAgree(s, n, t, 0);
  }

  /** ... and the texts around and inside that match are those of `t`. */
  lemma AgreeMatchText(s: string, n: nat, t: string, m: Match)
    requires Agree(s, n, t) && m.start + 3 <= m.end <= |t|
    ensures Inner(s, Match(n + m.start, n + m.end)) == Inner(t, m)
    ensures s[n..n + m.start] == t[..m.start]
    ensures s[n + m.end..] == t[m.end..]
  {
    AgreeSlice(s, n, t, m.start + 2, m.end - 1);
    AgreeSlice(s, n, t, 0, m.start);
    AgreeSlice(s, n, t, m.end, |t|);
  }

  /** The match the loop finds from `from` is the first match of the text from there on,
      moved by `from`. */
  lemma SuffixMatch(s: string, from: nat, m: Match)
    requires from <= |s| && FindMatch(s[from..], 0) == Some(m)
    ensures FindMatch(s, from) == Some(Match(from + m.start, from + m.end))
    ensures Inner(s, Match(from + m.start, from + m.end)) == Inner(s[from..], m)
    ensures s[from..from + m.start] == s[from..][..m.start]
    ensures s[from + m.end..] == s[from..][m.end..]
  {
    AgreeSuffix(s, from);
    AgreeMatch(s, from, s[from..], m);
    AgreeMatchText(s, from, s[from..], m);
  }

  lemma SuffixNoMatch(s: string, from: nat)
    requires from <= |s| && FindMatch(s[from..], 0).None?
    ensures FindMatch(s, from).None?
  {
    AgreeSuffix(s, from);
    FindMatchAgree(s, from, s[from..], 0);
  }

  lemma AppendRegroup(a: string, b: string, c: string, d: string)
    ensures a + b + c + d == a + (b + c) + d
  {
  }

  /** One turn of the correspondence: the loop's turn at match `m` against one unfolding
      of `Splice`, given the correspondence for the rest. */
  lemma SubstituteSpliceStep(s: string, done: string, from: nat, m: Match, t: string, config: Config, eval: Evaluator)
    requires from <= |s| && '$' !in done && FindMatch(s, from) == Some(m)
    requires '$' !in s[from..m.start] && eval(Inner(s, m), config) == Some(t)
    requires Splice(s[from..], config, eval) == Prepend(s[from..m.start] + t, Splice(s[m.end..], config, eval))
    requires SubstituteFrom(s, done + (s[from..m.start] + t) + s[m.end..], m.end, config, eval)
      == Prepend(done + (s[from..m.start] + t), Splice(s[m.end..], config, eval))
    ensures SubstituteFrom(s, done + s[from..], from, config, eval)
      == Prepend(done, Splice(s[from..], config, eval))
  {
    var piece := s[from..m.start] + t;
    SubstituteStep(s, done, from, m, t, config, eval);
    AppendRegroup(done, s[from..m.start], t, s[m.end..]);
    PrependAssoc(done, piece, Splice(s[m.end..], config, eval));
  }

  /** One unfolding of `Splice` and `NoStrayDollar` on the text from `from` on, stated with
      the positions of `s`. */
  lemma SpliceSuffixUnfold(s: string, from: nat, mu: Match, t: string, config: Config, eval: Evaluator)
    requires from <= |s| && FindMatch(s[from..], 0) == Some(mu) && eval(Inner(s[from..], mu), config) == Some(t)
    ensures var m := Match(from + mu.start, from + mu.end);
      && FindMatch(s, from) == Some(m)
      && eval(Inner(s, m), config) == Some(t)
      && Splice(s[from..], config, eval) == Prepend(s[from..m.start] + t, Splice(s[m.end..], config, eval))
      && NoStrayDollar(s[from..], config, eval)
        == ('$' !in s[from..m.start] && '$' !in t && NoStrayDollar(s[m.end..], config, eval))
  {
    SuffixMatch(s, from, mu);
    SpliceUnfold(s[from..], mu, t, config, eval);
  }

  /** When no stray `$` can mislead the first-occurrence `replace`, the loop puts each
      evaluated text exactly where its placeholder stood. */
  lemma {:induction false} SubstituteIsSplice(s: string, done: string, from: nat, config: Config, eval: Evaluator)
    requires from <= |s| && '$' !in done && NoStrayDollar(s[from..], config, eval)
    ensures SubstituteFrom(s, done + s[from..], from, config, eval)
      == Prepend(done, Splice(s[from..], config, eval))
    decreases |s| - from
  {
    match FindMatch(s[from..], 0)
    case None =>
      SuffixNoMatch(s, from);
    case Some(mu) =>
      var m := Match(from + mu.start, from + mu.end);
      SuffixMatch(s, from, mu);
      match eval(Inner(s[from..], mu), config)
      case None =>
      case Some(t) =>
        SpliceSuffixUnfold(s, from, mu, t, config, eval);
        var piece := s[from..m.start] + t;
        SubstituteIsSplice(s, done + piece, m.end, config, eval);
        SubstituteSpliceStep(s, done, from, m, t, config, eval);
  }

  /** A string other than a whole `${K}` without stray `$`: each placeholder is replaced in place. */
  lemma ResolveSplices(key: Key, s: string, config: Config, eval: Evaluator)
    requires WholeMatchKey(s, config).None? && NoStrayDollar(s, config, eval)
    ensures Resolve(key, JStr(s), config, eval)
      == (match Splice(s, config, eval) case Ok(x) => Ok(JStr(x)) case Err(e) => Err(e))
  {
    assert s[0..] == s;
    SubstituteIsSplice(s, "", 0, config, eval);
    assert "" + s == s;
    PrependNil(Splice(s, config, eval));
  }

  // ---------------------------------------------------------------------------
  // Placeholder by placeholder: text before a position does not affect what follows it.

  function ShiftMatch(m: Option<Match>, d: nat): Option<Match> {
    match m
    case None => None
    case Some(x) => Some(Match(d + x.start, d + x.end))
  }

  /** `t` is the text of `s` from position `n` on. */
  predicate Agree(s: string, n: nat, t: string) {
    |s| == n + |t| && forall k {:trigger t[k]} :: 0 <= k < |t| ==> s[n + k] == t[k]
  }

  lemma AgreeSuffix(s: string, n: nat)
    requires n <= |s|
    ensures Agree(s, n, s[n..])
  {
  }

  lemma AgreeSlice(s: string, n: nat, t: string, i: nat, j: nat)
    requires Agree(s, n, t) && i <= j <= |t|
    ensures s[n + i..n + j] == t[i..j]
  {
    forall k | 0 <= k < j - i
      ensures s[n + i..n + j][k] == t[i..j][k]
    {
      assert t[i..j][k] == t[i + k];
    }
  }

  lemma {:induction false} CloseFromAgree(s: string, n: nat, t: string, k: nat)
    requires Agree(s, n, t)
    ensures CloseFrom(s, n + k) == (match CloseFrom(t, k) case None => None case Some(j) => Some(n + j))
    decreases |t| - k
  {
    if k < |t| {
      assert s[n + k] == t[k];
      CloseFromAgree(s, n, t, k + 1);
    }
  }

  lemma MatchAtAgree(s: string, n: nat, t: string, i: nat)
    requires Agree(s, n, t)
    ensures MatchAt(s, n + i) == (match MatchAt(t, i) case None => None case Some(e) => Some(n + e))
  {
    if i + 2 < |t| {
      assert s[n + i] == t[i] && s[n + i + 1] == t[i + 1] && s[n + i + 2] == t[i + 2];
      CloseFromAgree(s, n, t, i + 3);
    }
  }

  /** Matching from a position reads only the text from that position on. */
  lemma {:induction false} FindMatchAgree(s: string, n: nat, t: string, i: nat)
    requires Agree(s, n, t)
    ensures FindMatch(s, n + i) == ShiftMatch(FindMatch(t, i), n)
    decreases |t| - i
  {
    if i < |t| {
      MatchAtAgree(s, n, t, i);
      FindMatchAgree(s, n, t, i + 1);
    }
  }

  /** The first match at or after `from` is the one at `i` when none starts in between. */
  lemma {:induction false} FindMatchFirst(s: string, from: nat, i: nat)
    requires from <= i && MatchAt(s, i).Some?
    requires forall j :: from <= j < i ==> MatchAt(s, j).None?
    ensures FindMatch(s, from) == Some(Match(i, MatchAt(s, i).value))
    decreases i - from
  {
    if from < i {
      FindMatchFirst(s, from + 1, i);
    }
  }

  lemma {:induction false} FindMatchNone(s: string, from: nat)
    requires forall j :: from <= j < |s| ==> MatchAt(s, j).None?
    ensures FindMatch(s, from).None?
    decreases |s| - from
  {
    if from < |s| {
      FindMatchNone(s, from + 1);
    }
  }

  /** An expression the regular expression captures whole: nonempty, no `}` and no line terminator. */
  predicate PlainExpression(e: string) {
    e != [] && forall c :: c in e ==> c != '}' && !IsLineTerminator(c)
  }

  /** Literal text without `$` passes through splicing as it is. */
  lemma SpliceLiteral(lit: string, config: Config, eval: Evaluator)
    requires '$' !in lit
    ensures NoStrayDollar(lit, config, eval) && Splice(lit, config, eval) == Ok(lit)
  {
    forall j | 0 <= j < |lit|
      ensures MatchAt(lit, j).None?
    {
      assert lit[j] in lit;
    }
    FindMatchNone(lit, 0);
  }

  /** In literal text without `$` followed by `${e}`, the first match is that placeholder. */
  lemma PlaceholderFirst(lit: string, e: string, rest: string)
    requires '$' !in lit && PlainExpression(e)
    ensures var s := lit + "${" + e + "}" + rest;
      && FindMatch(s, 0) == Some(Match(|lit|, |lit| + |e| + 3))
      && Inner(s, Match(|lit|, |lit| + |e| + 3)) == e
      && s[..|lit|] == lit
      && s[|lit| + |e| + 3..] == rest
  {
    var s := lit + "${" + e + "}" + rest;
    var i := |lit|;
    forall j | 0 <= j < i
      ensures MatchAt(s, j).None?
    {
      assert s[j] == lit[j] && lit[j] in lit;
    }
    assert s[i] == '$' && s[i + 1] == '{' && s[i + 2] == e[0] && e[0] in e;
    forall m | i + 3 <= m < i + 2 + |e|
      ensures s[m] != '}' && !IsLineTerminator(s[m])
    {
      assert s[m] == e[m - i - 2] && e[m - i - 2] in e;
    }
    CloseFromFinds(s, i + 3, i + 2 + |e|);
    FindMatchFirst(s, 0, i);
  }

  /** Literal text, then `${e}`: the literal is kept and the placeholder becomes the evaluated text. */
  lemma SplicePlaceholder(lit: string, e: string, rest: string, t: string, config: Config, eval: Evaluator)
    requires '$' !in lit && PlainExpression(e) && eval(e, config) == Some(t)
    ensures Splice(lit + "${" + e + "}" + rest, config, eval) == Prepend(lit + t, Splice(rest, config, eval))
  {
    var s := lit + "${" + e + "}" + rest;
    var m := Match(|lit|, |lit| + |e| + 3);
    PlaceholderFirst(lit, e, rest);
    SpliceUnfold(s, m, t, config, eval);
  }

  lemma NoStrayDollarPlaceholder(lit: string, e: string, rest: string, t: string, config: Config, eval: Evaluator)
    requires '$' !in lit && PlainExpression(e) && eval(e, config) == Some(t) && '$' !in t
    requires NoStrayDollar(rest, config, eval)
    ensures NoStrayDollar(lit + "${" + e + "}" + rest, config, eval)
  {
    var s := lit + "${" + e + "}" + rest;
    var m := Match(|lit|, |lit| + |e| + 3);
    PlaceholderFirst(lit, e, rest);
    SpliceUnfold(s, m, t, config, eval);
  }

  /** A lone placeholder whose expression is no configuration key is not a whole match:
      its evaluated text takes its place. */
  lemma ResolveLonePlaceholder(key: Key, e: string, t: string, config: Config, eval: Evaluator)
    requires PlainExpression(e) && e !in config && eval(e, config) == Some(t) && '$' !in t
    ensures Resolve(key, JStr("${" + e + "}"), config, eval) == Ok(JStr(t))
  {
    var s := "${" + e + "}";
    assert s[2..|s| - 1] == e;
    assert WholeMatchKey(s, config).None?;
    SpliceLiteral("", config, eval);
    SplicePlaceholder("", e, "", t, config, eval);
    NoStrayDollarPlaceholder("", e, "", t, config, eval);
    LoneRegroup(e, t);
    ResolveSplices(key, s, config, eval);
  }

  lemma LoneRegroup(e: string, t: string)
    ensures "" + "${" + e + "}" + "" == "${" + e + "}"
    ensures "" + t + "" == t
  {
  }

  /** A text with two placeholders between literal pieces: each placeholder becomes its
      evaluated text, in place. */
  lemma SpliceTwoPlaceholders(lit0: string, e1: string, lit1: string, e2: string, lit2: string,
                              t1: string, t2: string, config: Config, eval: Evaluator)
    requires '$' !in lit0 && '$' !in lit1 && '$' !in lit2 && '$' !in t1 && '$' !in t2
    requires PlainExpression(e1) && PlainExpression(e2)
    requires eval(e1, config) == Some(t1) && eval(e2, config) == Some(t2)
    ensures var s := lit0 + "${" + e1 + "}" + (lit1 + "${" + e2 + "}" + lit2);
      && NoStrayDollar(s, config, eval)
      && Splice(s, config, eval) == Ok(lit0 + t1 + lit1 + t2 + lit2)
  {
    var rest := lit1 + "${" + e2 + "}" + lit2;
    SpliceLiteral(lit2, config, eval);
    SplicePlaceholder(lit1, e2, lit2, t2, config, eval);
    NoStrayDollarPlaceholder(lit1, e2, lit2, t2, config, eval);
    SplicePlaceholder(lit0, e1, rest, t1, config, eval);
    NoStrayDollarPlaceholder(lit0, e1, rest, t1, config, eval);
    assert lit0 + t1 + (lit1 + t2 + lit2) == lit0 + t1 + lit1 + t2 + lit2;
  }

  // ---------------------------------------------------------------------------
  // The behaviour the repository's tests expect, and one the in-place reading misses.

  /** The global configuration of the tests, as far as resolution reads it. */
  const SampleConfig: Config := map["version" := JStr("4.1"), "MyTestString" := JStr("some test string")]

  lemma PairRegroup(e1: string, sep: string, e2: string, t1: string, t2: string)
    ensures "" + "${" + e1 + "}" + (sep + "${" + e2 + "}" + "") == "${" + e1 + "}" + sep + "${" + e2 + "}"
    ensures "" + t1 + sep + t2 + "" == t1 + sep + t2
  {
  }

  /** Two placeholders with literal text between them and nothing around them. */
  lemma SpliceSeparated(e1: string, sep: string, e2: string, t1: string, t2: string, config: Config, eval: Evaluator)
    requires '$' !in sep && '$' !in t1 && '$' !in t2
    requires PlainExpression(e1) && PlainExpression(e2)
    requires eval(e1, config) == Some(t1) && eval(e2, config) == Some(t2)
    ensures NoStrayDollar("${" + e1 + "}" + sep + "${" + e2 + "}", config, eval)
    ensures Splice("${" + e1 + "}" + sep + "${" + e2 + "}", config, eval) == Ok(t1 + sep + t2)
  {
    SpliceTwoPlaceholders("", e1, sep, e2, "", t1, t2, config, eval);
    PairRegroup(e1, sep, e2, t1, t2);
  }

  lemma VersionNotWhole(e1: string, e2: string)
    requires e1 == "version" && e2 == "1+1"
    ensures WholeMatchKey("${" + e1 + "}" + "." + "${" + e2 + "}", SampleConfig).None?
  {
    var s := "${" + e1 + "}" + "." + "${" + e2 + "}";
    assert |s[2..|s| - 1]| == 14;
  }

  /** `"${version}.${1+1}"` becomes `"4.1.2"` when the evaluator gives `4.1` and `2`. */
  lemma ResolveVersionExample(e1: string, e2: string, eval: Evaluator)
    requires e1 == "version" && e2 == "1+1"
    requires eval(e1, SampleConfig) == Some("4.1") && eval(e2, SampleConfig) == Some("2")
    ensures Resolve(Name("version"), JStr("${" + e1 + "}" + "." + "${" + e2 + "}"), SampleConfig, eval)
      == Ok(JStr("4.1.2"))
  {
    var s := "${" + e1 + "}" + "." + "${" + e2 + "}";
    assert PlainExpression(e1) && PlainExpression(e2);
    SpliceSeparated(e1, ".", e2, "4.1", "2", SampleConfig, eval);
    VersionNotWhole(e1, e2);
    ResolveSplices(Name("version"), s, SampleConfig, eval);
    assert "4.1" + "." + "2" == "4.1.2";
  }

  /** `"${MyTestString}"` alone takes the configured value itself, whatever its type. */
  lemma ResolveWholeExample(eval: Evaluator)
    ensures Resolve(Name("alexa"), JStr("${MyTestString}"), SampleConfig, eval) == Ok(JStr("some test string"))
    ensures Resolve(Name("alexa"), JStr("${MyTestString}"), map["MyTestString" := JArr([JStr("Käsekuchen")])], eval)
      == Ok(JArr([JStr("Käsekuchen")]))
  {
    assert "${MyTestString}" == "${" + "MyTestString" + "}";
    ResolveWholeMatch(Name("alexa"), JStr("${MyTestString}"), SampleConfig, eval);
    ResolveWholeMatch(Name("alexa"), JStr("${MyTestString}"), map["MyTestString" := JArr([JStr("Käsekuchen")])], eval);
  }

  lemma RepeatedNotWhole(e: string)
    requires e == "MyTestString"
    ensures WholeMatchKey("${" + e + "}" + "-" + "${" + e + "}", SampleConfig).None?
  {
    var s := "${" + e + "}" + "-" + "${" + e + "}";
    assert |s[2..|s| - 1]| == 28;
  }

  /** Inside a longer text each occurrence is replaced by the evaluated text. */
  lemma ResolveRepeatedExample(e: string, t: string, eval: Evaluator)
    requires e == "MyTestString" && t == "some test string"
    requires eval(e, SampleConfig) == Some(t)
    ensures Resolve(Name("googleAssistant"), JStr("${" + e + "}" + "-" + "${" + e + "}"), SampleConfig, eval)
      == Ok(JStr(t + "-" + t))
  {
    var s := "${" + e + "}" + "-" + "${" + e + "}";
    assert PlainExpression(e);
    SpliceSeparated(e, "-", e, t, t, SampleConfig, eval);
    RepeatedNotWhole(e);
    ResolveSplices(Name("googleAssistant"), s, SampleConfig, eval);
  }

  lemma FirstPlaceholderMatch(s: string)
    requires s == "${a}" + "-" + "${b}"
    ensures FindMatch(s, 0) == Some(Match(0, 4)) && Inner(s, Match(0, 4)) == "a"
  {
    assert PlainExpression("a");
    assert s == "" + "${" + "a" + "}" + ("-" + "${b}");
    PlaceholderFirst("", "a", "-" + "${b}");
  }

  lemma SecondPlaceholderMatch(s: string)
    requires s == "${a}" + "-" + "${b}"
    ensures FindMatch(s, 4) == Some(Match(5, 9)) && Inner(s, Match(5, 9)) == "b"
  {
    assert PlainExpression("b");
    assert s[4..] == "-" + "${" + "b" + "}" + "";
    PlaceholderFirst("-", "b", "");
    SuffixMatch(s, 4, Match(1, 5));
  }

  /** Where the expression finds the two placeholders of `${a}-${b}`. */
  lemma TwoPlaceholderMatches(s: string)
    requires s == "${a}" + "-" + "${b}"
    ensures FindMatch(s, 0) == Some(Match(0, 4)) && Inner(s, Match(0, 4)) == "a" && Whole(s, Match(0, 4)) == "${a}"
    ensures FindMatch(s, 4) == Some(Match(5, 9)) && Inner(s, Match(5, 9)) == "b" && Whole(s, Match(5, 9)) == "${b}"
    ensures FindMatch(s, 9).None?
  {
    FirstPlaceholderMatch(s);
    SecondPlaceholderMatch(s);
  }

  lemma TwoPlaceholderReplacements(s: string)
    requires s == "${a}" + "-" + "${b}"
    ensures ReplaceFirst(s, "${a}", "${b}") == "${b}" + "-" + "${b}"
    ensures ReplaceFirst("${b}" + "-" + "${b}", "${b}", "B") == "B" + "-" + "${b}"
  {
    ReplaceLeading("${a}", "-" + "${b}", "${b}");
    ReplaceLeading("${b}", "-" + "${b}", "B");
  }

  /** A pattern starting with `$` at the very front of the text is replaced there. */
  lemma ReplaceLeading(pat: string, rest: string, rep: string)
    requires |pat| > 0 && pat[0] == '$'
    ensures ReplaceFirst(pat + rest, pat, rep) == rep + rest
  {
    var text := pat + rest;
    assert OccursAt(text, pat, 0);
    ReplaceAtFirstDollar(text, pat, rep, 0);
    assert text[|pat|..] == rest;
  }

  lemma SpliceTwoExample(s: string, eval: Evaluator)
    requires s == "${a}" + "-" + "${b}"
    requires eval("a", map[]) == Some("${b}") && eval("b", map[]) == Some("B")
    ensures Splice(s, map[], eval) == Ok("${b}" + "-" + "B")
  {
    var rest := "-" + "${" + "b" + "}" + "";
    assert PlainExpression("a") && PlainExpression("b");
    SpliceLiteral("", map[], eval);
    SplicePlaceholder("-", "b", "", "B", map[], eval);
    assert s == "" + "${" + "a" + "}" + rest;
    SplicePlaceholder("", "a", rest, "${b}", map[], eval);
    assert "" + "${b}" + ("-" + "B" + "") == "${b}" + "-" + "B";
  }

  /** The replacement goes to the first occurrence of the matched text in the text built so
      far, not to the position of the match: when `a` evaluates to the text `${b}`, the second
      turn rewrites that inserted text and leaves the original `${b}` in place, where splicing
      in place would give `${b}-B`. */
  lemma ResolveFirstOccurrenceExample(s: string, eval: Evaluator)
    requires s == "${a}" + "-" + "${b}"
    requires eval("a", map[]) == Some("${b}") && eval("b", map[]) == Some("B")
    ensures Resolve(Name("k"), JStr(s), map[], eval) == Ok(JStr("B" + "-" + "${b}"))
    ensures Splice(s, map[], eval) == Ok("${b}" + "-" + "B")
  {
    TwoPlaceholderMatches(s);
    TwoPlaceholderReplacements(s);
    var t1 := "${b}" + "-" + "${b}";
    var t2 := "B" + "-" + "${b}";
    assert SubstituteFrom(s, t1, 4, map[], eval) == Ok(t2);
    assert SubstituteFrom(s, s, 0, map[], eval) == Ok(t2);
    assert WholeMatchKey(s, map[]).None?;
    SpliceTwoExample(s, eval);
  }

  lemma StrayFirstMatch(s: string)
    requires s == "$" + ("${a}" + " " + "${q}")
    ensures FindMatch(s, 0) == Some(Match(1, 5)) && Inner(s, Match(1, 5)) == "a"
  {
    assert PlainExpression("a");
    assert s[1..] == "" + "${" + "a" + "}" + (" " + "${q}");
    PlaceholderFirst("", "a", " " + "${q}");
    SuffixMatch(s, 1, Match(0, 4));
    assert s[1] == '$';
    assert MatchAt(s, 0).None?;
  }

  lemma StraySecondMatch(s: string)
    requires s == "$" + ("${a}" + " " + "${q}")
    ensures FindMatch(s, 5) == Some(Match(6, 10)) && Inner(s, Match(6, 10)) == "q"
  {
    assert PlainExpression("q");
    assert s[5..] == " " + "${" + "q" + "}" + "";
    PlaceholderFirst(" ", "q", "");
    SuffixMatch(s, 5, Match(1, 5));
  }

  /** Where the expression finds the placeholders of `$${a} ${q}`: not at the leading `$`. */
  lemma StrayDollarMatches(s: string)
    requires s == "$" + ("${a}" + " " + "${q}")
    ensures FindMatch(s, 0) == Some(Match(1, 5)) && Inner(s, Match(1, 5)) == "a" && Whole(s, Match(1, 5)) == "${a}"
    ensures FindMatch(s, 5) == Some(Match(6, 10)) && Inner(s, Match(6, 10)) == "q" && Whole(s, Match(6, 10)) == "${q}"
    ensures FindMatch(s, 10).None?
  {
    StrayFirstMatch(s);
    StraySecondMatch(s);
    assert s[1..5] == "${a}" && s[6..10] == "${q}";
  }

  lemma StrayDollarReplacements(s: string)
    requires s == "$" + ("${a}" + " " + "${q}")
    ensures ReplaceFirst(s, "${a}", "{q}") == "${q}" + " " + "${q}"
    ensures ReplaceFirst("${q}" + " " + "${q}", "${q}", "Q") == "Q" + " " + "${q}"
  {
    StrayFirstReplace(s);
    ReplaceLeading("${q}", " " + "${q}", "Q");
  }

  /** `${a}` first occurs at index 1 of `$${a} ${q}`: index 0 holds `$$`. */
  lemma StrayFirstReplace(s: string)
    requires s == "$" + ("${a}" + " " + "${q}")
    ensures ReplaceFirst(s, "${a}", "{q}") == "${q}" + " " + "${q}"
  {
    var pat := "${a}";
    assert s[0..4] != pat by {
      assert s[0..4][1] == '$' && pat[1] == '{';
    }
    assert s[1..5] == pat;
    assert IndexOfFrom(s, pat, 1) == Some(1);
    assert IndexOfFrom(s, pat, 0) == Some(1);
    assert s[..1] + "{q}" + s[5..] == "${q}" + " " + "${q}";
  }

  lemma StraySplice(s: string, eval: Evaluator)
    requires s == "$" + ("${a}" + " " + "${q}")
    requires eval("a", map[]) == Some("{q}") && eval("q", map[]) == Some("Q")
    ensures Splice(s, map[], eval) == Ok("${q}" + " " + "Q")
  {
    StrayDollarMatches(s);
    SpliceUnfold(s, Match(1, 5), "{q}", map[], eval);
    assert s[5..] == " " + "${" + "q" + "}" + "";
    SpliceLiteral("", map[], eval);
    SplicePlaceholder(" ", "q", "", "Q", map[], eval);
    assert s[..1] + "{q}" + (" " + "Q" + "") == "${q}" + " " + "Q";
  }

  /** A `$` that starts no placeholder also breaks the agreement with splicing, even though no
      evaluated text contains a `$`: in `$${a} ${q}` with `a` evaluating to `{q}`, the first
      turn completes a new `${q}` in front of the original one, and the second turn replaces
      that new copy. */
  lemma StrayDollarExample(s: string, eval: Evaluator)
    requires s == "$" + ("${a}" + " " + "${q}")
    requires eval("a", map[]) == Some("{q}") && eval("q", map[]) == Some("Q")
    ensures Resolve(Name("k"), JStr(s), map[], eval) == Ok(JStr("Q" + " " + "${q}"))
    ensures Splice(s, map[], eval) == Ok("${q}" + " " + "Q")
  {
    StrayDollarMatches(s);
    StrayDollarReplacements(s);
    var t1 := "${q}" + " " + "${q}";
    var t2 := "Q" + " " + "${q}";
    assert SubstituteFrom(s, t1, 5, map[], eval) == Ok(t2);
    assert SubstituteFrom(s, s, 0, map[], eval) == Ok(t2);
    assert WholeMatchKey(s, map[]).None?;
    StraySplice(s, eval);
  }
}
