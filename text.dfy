/** The JavaScript string operations the hook relies on: `trim`, collapsing runs of
    spaces, the default sort order, `indexOf` / first-occurrence `replace`, and
    splitting at a delimiter. */
module Text {
  import opened JsonValue

  /** WhiteSpace and LineTerminator code points, the set `String.prototype.trim` strips. */
  const WhitespaceChars: set<char> :=
    {'\t', '\n', '\U{B}', '\U{C}', '\r', ' ', '\U{A0}', '\U{1680}',
     '\U{2000}', '\U{2001}', '\U{2002}', '\U{2003}', '\U{2004}', '\U{2005}',
     '\U{2006}', '\U{2007}', '\U{2008}', '\U{2009}', '\U{200A}',
     '\U{2028}', '\U{2029}', '\U{202F}', '\U{205F}', '\U{3000}', '\U{FEFF}'}

  predicate IsWhitespace(c: char) {
    c in WhitespaceChars
  }

  /** The characters a regular-expression `.` does not match. */
  const LineTerminators: set<char> := {'\n', '\r', '\U{2028}', '\U{2029}'}

  predicate IsLineTerminator(c: char) {
    c in LineTerminators
  }

  predicate AllWhitespace(s: string) {
    forall i :: 0 <= i < |s| ==> IsWhitespace(s[i])
  }

  /** The first position at or after `i` that does not hold whitespace (or the end). */
  function SkipWhitespace(s: string, i: nat): (k: nat)
    requires i <= |s|
    ensures i <= k <= |s| && (k == |s| || !IsWhitespace(s[k]))
    ensures forall j :: i <= j < k ==> IsWhitespace(s[j])
    decreases |s| - i
  {
    if i < |s| && IsWhitespace(s[i]) then SkipWhitespace(s, i + 1) else i
  }

  /** The last position at or before `j` not preceded by whitespace (or the start). */
  function SkipWhitespaceBack(s: string, j: nat): (k: nat)
    requires j <= |s|
    ensures k <= j && (k == 0 || !IsWhitespace(s[k - 1]))
    ensures forall i :: k <= i < j ==> IsWhitespace(s[i])
  {
    if j > 0 && IsWhitespace(s[j - 1]) then SkipWhitespaceBack(s, j - 1) else j
  }

  function TrimStart(s: string): (r: string)
    ensures |r| <= |s| && r == s[|s| - |r|..]
    ensures forall i :: 0 <= i < |s| - |r| ==> IsWhitespace(s[i])
    ensures r == [] || !IsWhitespace(r[0])
  {
    s[SkipWhitespace(s, 0)..]
  }

  function TrimEnd(s: string): (r: string)
    ensures |r| <= |s| && r == s[..|r|]
    ensures forall i :: |r| <= i < |s| ==> IsWhitespace(s[i])
    ensures r == [] || !IsWhitespace(r[|r| - 1])
  {
    s[..SkipWhitespaceBack(s, |s|)]
  }

  /** `s.trim()` */
  function Trim(s: string): string {
    TrimEnd(TrimStart(s))
  }

  /** Trim cuts whitespace only, and exactly up to the first and last other character. */
  lemma TrimSpec(s: string)
    ensures var r := Trim(s);
      && (r == [] || (!IsWhitespace(r[0]) && !IsWhitespace(r[|r| - 1])))
      && exists i, j :: 0 <= i <= j <= |s| && r == s[i..j] && AllWhitespace(s[..i]) && AllWhitespace(s[j..])
  {
    var t := TrimStart(s);
    var r := TrimEnd(t);
    var i := |s| - |t|;
    var j := i + |r|;
    assert 0 <= i <= j <= |s| && r == s[i..j];
    assert AllWhitespace(s[..i]) by {
      forall k | 0 <= k < i
        ensures IsWhitespace(s[..i][k])
      {
        assert s[..i][k] == s[k];
      }
    }
    assert AllWhitespace(s[j..]) by {
      forall k | 0 <= k < |s| - j
        ensures IsWhitespace(s[j..][k])
      {
        assert s[j..][k] == t[|r| + k];
      }
    }
    assert r == [] || (!IsWhitespace(r[0]) && !IsWhitespace(r[|r| - 1])) by {
      if r != [] {
        assert r[0] == t[0];
      }
    }
  }

  /** Drop the run of spaces (U+0020 only) at the front. */
  function SkipSpaces(s: string): (r: string)
    ensures |r| <= |s| && r == s[|s| - |r|..]
    ensures r == [] || r[0] != ' '
    ensures forall i :: 0 <= i < |s| - |r| ==> s[i] == ' '
    decreases |s|
  {
    if s != [] && s[0] == ' ' then SkipSpaces(s[1..]) else s
  }

  /** `s.replace(/ {1,}/g, " ")`: every maximal run of spaces becomes one space. */
  function CollapseSpaces(s: string): (r: string)
    decreases |s|
  {
    if s == [] then []
    else if s[0] == ' ' then " " + CollapseSpaces(SkipSpaces(s))
    else [s[0]] + CollapseSpaces(s[1..])
  }

  predicate NoDoubleSpace(s: string) {
    forall i :: 0 <= i < |s| - 1 ==> !(s[i] == ' ' && s[i + 1] == ' ')
  }

  /** The characters of `s` other than spaces, in order. */
  function WithoutSpaces(s: string): string
    decreases |s|
  {
    if s == [] then [] else (if s[0] == ' ' then [] else [s[0]]) + WithoutSpaces(s[1..])
  }

  lemma {:induction false} WithoutSpacesSkip(s: string)
    ensures WithoutSpaces(SkipSpaces(s)) == WithoutSpaces(s)
    decreases |s|
  {
    if s != [] && s[0] == ' ' {
      WithoutSpacesSkip(s[1..]);
    }
  }

  /** Putting a character in front of a text without double spaces keeps it so, unless
      both are spaces. */
  lemma ConsNoDoubleSpace(c: char, t: string)
    requires NoDoubleSpace(t) && (c != ' ' || t == [] || t[0] != ' ')
    ensures NoDoubleSpace([c] + t)
  {
    var r := [c] + t;
    forall i | 0 <= i < |r| - 1
      ensures !(r[i] == ' ' && r[i + 1] == ' ')
    {
      if i > 0 {
        assert r[i] == t[i - 1] && r[i + 1] == t[i];
      }
    }
  }

  /** The first character survives collapsing unless it is a space, and a leading run of
      spaces becomes one space. */
  lemma CollapseSpacesHead(s: string)
    requires s != []
    ensures CollapseSpaces(s) != [] && CollapseSpaces(s)[0] == (if s[0] == ' ' then ' ' else s[0])
  {
  }

  lemma {:induction false} CollapseSpacesNoDouble(s: string)
    ensures NoDoubleSpace(CollapseSpaces(s))
    decreases |s|
  {
    if s == [] {
    } else if s[0] == ' ' {
      var t := SkipSpaces(s);
      CollapseSpacesNoDouble(t);
      if t != [] {
        CollapseSpacesHead(t);
      }
      ConsNoDoubleSpace(' ', CollapseSpaces(t));
    } else {
      CollapseSpacesNoDouble(s[1..]);
      ConsNoDoubleSpace(s[0], CollapseSpaces(s[1..]));
    }
  }

  lemma {:induction false} CollapseSpacesKeeps(s: string)
    ensures WithoutSpaces(CollapseSpaces(s)) == WithoutSpaces(s)
    decreases |s|
  {
    if s == [] {
    } else if s[0] == ' ' {
      var t := SkipSpaces(s);
      CollapseSpacesKeeps(t);
      WithoutSpacesSkip(s);
      var rt := CollapseSpaces(t);
      assert (" " + rt)[1..] == rt;
    } else {
      CollapseSpacesKeeps(s[1..]);
      assert ([s[0]] + CollapseSpaces(s[1..]))[1..] == CollapseSpaces(s[1..]);
    }
  }

  lemma {:induction false} CollapseSpacesLast(s: string)
    requires s != [] && s[|s| - 1] != ' '
    ensures var r := CollapseSpaces(s); r != [] && r[|r| - 1] == s[|s| - 1]
    decreases |s|
  {
    if s[0] == ' ' {
      var t := SkipSpaces(s);
      assert t != [] && t[|t| - 1] == s[|s| - 1];
      CollapseSpacesLast(t);
    } else if |s| > 1 {
      assert s[1..][|s| - 2] == s[|s| - 1];
      CollapseSpacesLast(s[1..]);
    }
  }

  /** Collapsing leaves no run of two spaces, keeps every other character in order,
      and keeps the first and the last character when they are not spaces. */
  lemma CollapseSpacesSpec(s: string)
    ensures var r := CollapseSpaces(s);
      && NoDoubleSpace(r)
      && WithoutSpaces(r) == WithoutSpaces(s)
      && (s == [] <==> r == [])
      && (s != [] && s[0] != ' ' ==> r[0] == s[0])
      && (s != [] && s[|s| - 1] != ' ' ==> r[|r| - 1] == s[|s| - 1])
      && r == DropRepeatedSpaces(s, 0)
  {
    CollapseSpacesDrops(s);
    CollapseSpacesNoDouble(s);
    CollapseSpacesKeeps(s);
    if s != [] {
      CollapseSpacesHead(s);
      if s[|s| - 1] != ' ' {
        CollapseSpacesLast(s);
      }
    }
  }

  /** A string that has no run of two spaces is left as it is. */
  lemma {:induction false} CollapseSpacesFixed(s: string)
    requires NoDoubleSpace(s)
    ensures CollapseSpaces(s) == s
    decreases |s|
  {
    if s == [] {
    } else if s[0] == ' ' {
      if |s| > 1 {
        assert s[1] != ' ';
        assert SkipSpaces(s) == s[1..];
      } else {
        assert SkipSpaces(s) == s[1..];
      }
      CollapseSpacesFixed(s[1..]);
    } else {
      CollapseSpacesFixed(s[1..]);
    }
  }

  /** Independent reference for the collapse, position by position from `i`: every
      character is kept except a space that directly follows a space. */
  function DropRepeatedSpaces(s: string, i: nat): string
    requires i <= |s|
    decreases |s| - i
  {
    if i == |s| then []
    else (if s[i] == ' ' && i > 0 && s[i - 1] == ' ' then [] else [s[i]]) + DropRepeatedSpaces(s, i + 1)
  }

  /** Inside a run of spaces nothing more is kept until the run ends. */
  lemma {:induction false} DropRepeatedSpacesRun(s: string, j: nat, k: nat)
    requires 0 < j <= k <= |s|
    requires forall m :: j - 1 <= m < k ==> s[m] == ' '
    ensures DropRepeatedSpaces(s, j) == DropRepeatedSpaces(s, k)
    decreases k - j
  {
    if j < k {
      DropRepeatedSpacesRun(s, j + 1, k);
      assert DropRepeatedSpaces(s, j) == [] + DropRepeatedSpaces(s, j + 1);
    }
  }

  /** From a position that does not continue a run of spaces, collapsing the rest of the
      string agrees with the positional reference. */
  lemma {:induction false} CollapseSpacesIsDrop(s: string, i: nat)
    requires i <= |s|
    requires i < |s| && s[i] == ' ' && i > 0 ==> s[i - 1] != ' '
    ensures CollapseSpaces(s[i..]) == DropRepeatedSpaces(s, i)
    decreases |s| - i
  {
    if i == |s| {
    } else if s[i] != ' ' {
      assert s[i..][1..] == s[i + 1..];
      CollapseSpacesIsDrop(s, i + 1);
    } else {
      var t := SkipSpaces(s[i..]);
      var k := |s| - |t|;
      assert t == s[k..];
      assert k > i by {
        assert s[i..][0] == ' ';
      }
      forall m | i <= m < k
        ensures s[m] == ' '
      {
        assert s[i..][m - i] == s[m];
      }
      CollapseSpacesIsDrop(s, k);
      DropRepeatedSpacesRun(s, i + 1, k);
    }
  }

  /** The collapse is exactly the positional reference: each run of spaces becomes one
      space and every other character is kept in place. */
  lemma CollapseSpacesDrops(s: string)
    ensures CollapseSpaces(s) == DropRepeatedSpaces(s, 0)
  {
    assert s[0..] == s;
    CollapseSpacesIsDrop(s, 0);
  }

  /** The normal form every spintax variant is given: `trim()` then collapse spaces. */
  function Normalize(s: string): string {
    CollapseSpaces(Trim(s))
  }

  predicate IsNormalized(s: string) {
    && (s == [] || (!IsWhitespace(s[0]) && !IsWhitespace(s[|s| - 1])))
    && NoDoubleSpace(s)
  }

  lemma NormalizeSpec(s: string)
    ensures IsNormalized(Normalize(s))
    ensures WithoutSpaces(Normalize(s)) == WithoutSpaces(Trim(s))
    ensures Normalize(s) == DropRepeatedSpaces(Trim(s), 0)
  {
    var t := Trim(s);
    TrimSpec(s);
    CollapseSpacesSpec(t);
  }

  /** A nonempty run of characters none of which is whitespace. */
  predicate Word(w: string) {
    w != [] && forall i :: 0 <= i < |w| ==> !IsWhitespace(w[i])
  }

  lemma WordNormalized(w: string)
    requires Word(w)
    ensures IsNormalized(w)
  {
  }

  /** Two normalized texts joined by one space are normalized. */
  lemma JoinNormalized(a: string, b: string)
    requires IsNormalized(a) && IsNormalized(b) && a != [] && b != []
    ensures IsNormalized(a + " " + b)
  {
    var s := a + " " + b;
    forall i | 0 <= i < |s| - 1
      ensures !(s[i] == ' ' && s[i + 1] == ' ')
    {
      if i < |a| - 1 {
        assert s[i] == a[i] && s[i + 1] == a[i + 1];
      } else if i == |a| - 1 {
        assert s[i] == a[|a| - 1];
      } else if i == |a| {
        assert s[i + 1] == b[0];
      } else {
        assert s[i] == b[i - |a| - 1] && s[i + 1] == b[i - |a|];
      }
    }
    assert s[0] == a[0] && s[|s| - 1] == b[|b| - 1];
  }

  /** A string already in normal form is left as it is. */
  lemma NormalizeFixed(s: string)
    requires IsNormalized(s)
    ensures Normalize(s) == s
  {
    assert TrimStart(s) == s;
    assert TrimEnd(s) == s;
    CollapseSpacesFixed(s);
  }

  /** Normalizing is idempotent. */
  lemma NormalizeIdempotent(s: string)
    ensures Normalize(Normalize(s)) == Normalize(s)
  {
    NormalizeSpec(s);
    NormalizeFixed(Normalize(s));
  }

  // ---------------------------------------------------------------------------
  // Ordering: Array.prototype.sort compares String(x) values character by character.

  /** `a <= b` in lexicographic order on character codes; a proper prefix comes first. */
  predicate LexLe(a: string, b: string)
    decreases |a|
  {
    a == [] || (b != [] && (a[0] < b[0] || (a[0] == b[0] && LexLe(a[1..], b[1..]))))
  }

  lemma {:induction false} LexLeTotal(a: string, b: string)
    ensures LexLe(a, b) || LexLe(b, a)
    decreases |a|
  {
    if a != [] && b != [] && a[0] == b[0] {
      LexLeTotal(a[1..], b[1..]);
    }
  }

  lemma {:induction false} LexLeTransitive(a: string, b: string, c: string)
    requires LexLe(a, b) && LexLe(b, c)
    ensures LexLe(a, c)
    decreases |a|
  {
    if a != [] && a[0] == b[0] && b[0] == c[0] {
      LexLeTransitive(a[1..], b[1..], c[1..]);
    }
  }

  lemma {:induction false} LexLeAntisymmetric(a: string, b: string)
    requires LexLe(a, b) && LexLe(b, a)
    ensures a == b
    decreases |a|
  {
    if a != [] {
      LexLeAntisymmetric(a[1..], b[1..]);
      assert a == [a[0]] + a[1..] && b == [b[0]] + b[1..];
    }
  }

  // ---------------------------------------------------------------------------
  // Searching and replacing text.

  predicate OccursAt(text: string, pat: string, i: nat) {
    i + |pat| <= |text| && text[i..i + |pat|] == pat
  }

  /** `text.indexOf(pat, from)` */
  function IndexOfFrom(text: string, pat: string, from: nat): (r: Option<nat>)
    ensures r.Some? ==> from <= r.value && OccursAt(text, pat, r.value)
    ensures r.Some? ==> forall k :: from <= k < r.value ==> !OccursAt(text, pat, k)
    ensures r.None? ==> forall k :: from <= k ==> !OccursAt(text, pat, k)
    decreases |text| - from
  {
    if from + |pat| > |text| then None
    else if text[from..from + |pat|] == pat then Some(from)
    else IndexOfFrom(text, pat, from + 1)
  }

  /** `text.replace(pat, rep)` for a string pattern: the first occurrence only, as literal text. */
  function ReplaceFirst(text: string, pat: string, rep: string): string {
    match IndexOfFrom(text, pat, 0)
    case None => text
    case Some(i) => text[..i] + rep + text[i + |pat|..]
  }

  /** The replacement lands on the leftmost occurrence and nowhere else;
      without an occurrence the text is returned as it is. */
  lemma ReplaceFirstSpec(text: string, pat: string, rep: string)
    ensures (forall k: nat :: !OccursAt(text, pat, k)) ==> ReplaceFirst(text, pat, rep) == text
    ensures forall i: nat ::
      (OccursAt(text, pat, i) && (forall k: nat :: k < i ==> !OccursAt(text, pat, k)))
      ==> ReplaceFirst(text, pat, rep) == text[..i] + rep + text[i + |pat|..]
  {
  }

  // ---------------------------------------------------------------------------
  // Splitting at a delimiter and joining back.

  function CharIndex(s: string, c: char, from: nat): (r: Option<nat>)
    ensures r.Some? ==> from <= r.value < |s| && s[r.value] == c
    ensures r.Some? ==> forall k :: from <= k < r.value ==> s[k] != c
    ensures r.None? ==> forall k :: from <= k < |s| ==> s[k] != c
    decreases |s| - from
  {
    if from >= |s| then None
    else if s[from] == c then Some(from)
    else CharIndex(s, c, from + 1)
  }

  /** `s.split(d)` for a one-character delimiter: always at least one piece. */
  function Split(s: string, d: char): (r: seq<string>)
    ensures |r| >= 1
    decreases |s|
  {
    match CharIndex(s, d, 0)
    case None => [s]
    case Some(i) => [s[..i]] + Split(s[i + 1..], d)
  }

  /** `parts.join(d)` */
  function Join(parts: seq<string>, d: char): string
    decreases |parts|
  {
    if parts == [] then ""
    else if |parts| == 1 then parts[0]
    else parts[0] + [d] + Join(parts[1..], d)
  }

  lemma {:induction false} JoinSplitInverse(s: string, d: char)
    ensures Join(Split(s, d), d) == s
    decreases |s|
  {
    match CharIndex(s, d, 0)
    case None =>
    case Some(i) =>
      var rest := Split(s[i + 1..], d);
      JoinSplitInverse(s[i + 1..], d);
      var parts := [s[..i]] + rest;
      assert Split(s, d) == parts;
      assert |parts| > 1 && parts[0] == s[..i] && parts[1..] == rest;
      assert Join(parts, d) == s[..i] + [d] + s[i + 1..];
      assert s == s[..i] + [d] + s[i + 1..];
  }

  lemma {:induction false} SplitNoDelimiter(s: string, d: char)
    ensures forall p :: p in Split(s, d) ==> d !in p
    decreases |s|
  {
    match CharIndex(s, d, 0)
    case None =>
      assert d !in s by {
        assert forall k :: 0 <= k < |s| ==> s[k] != d;
      }
    case Some(i) =>
      SplitNoDelimiter(s[i + 1..], d);
      assert d !in s[..i] by {
        assert forall k :: 0 <= k < i ==> s[..i][k] == s[k];
      }
      assert Split(s, d) == [s[..i]] + Split(s[i + 1..], d);
  }

  /** Joining the parts of a split gives the text back, and no part holds the delimiter. */
  lemma JoinSplit(s: string, d: char)
    ensures Join(Split(s, d), d) == s
    ensures forall p :: p in Split(s, d) ==> d !in p
  {
    JoinSplitInverse(s, d);
    SplitNoDelimiter(s, d);
  }

  lemma {:induction false} SplitJoin(parts: seq<string>, d: char)
    requires |parts| >= 1
    requires forall p :: p in parts ==> d !in p
    ensures Split(Join(parts, d), d) == parts
    decreases |parts|
  {
    if |parts| == 1 {
      assert d !in parts[0];
      assert forall k :: 0 <= k < |parts[0]| ==> parts[0][k] in parts[0];
      assert CharIndex(parts[0], d, 0).None?;
    } else {
      var s := Join(parts, d);
      var p := parts[0];
      var tail := Join(parts[1..], d);
      assert s == p + [d] + tail;
      assert CharIndex(s, d, 0) == Some(|p|) by {
        assert d !in p;
        assert forall k :: 0 <= k < |p| ==> s[k] == p[k] && p[k] in p;
        assert s[|p|] == d;
      }
      assert s[..|p|] == p && s[|p| + 1..] == tail;
      SplitJoin(parts[1..], d);
    }
  }
}
