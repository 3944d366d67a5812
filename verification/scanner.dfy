/** The declaration scanner of `validateTextDocument`: the global regular
    expression `\b([A-Z]|[a-z])+\b: ` run with repeated `exec` calls over the
    document text, as ECMAScript evaluates it without the `u` or `i` flag.

    The engine is modelled operationally (greedy letter run, backtracking,
    word-boundary assertions, `lastIndex` advancing past each match) and
    proved equal to the declarative reading `IsDeclaration`: a maximal run of
    ASCII letters that starts the text or follows a non-word character and is
    followed by a colon and a space. */
module Scanner {
  import opened LspTypes

  predicate IsAsciiLetter(c: char) {
    'A' <= c <= 'Z' || 'a' <= c <= 'z'
  }

  predicate IsDigit(c: char) {
    '0' <= c <= '9'
  }

  /** The `\w` class without the `u` flag: `[A-Za-z0-9_]`. */
  predicate IsWordChar(c: char) {
    IsAsciiLetter(c) || IsDigit(c) || c == '_'
  }

  /** A non-empty string of ASCII letters: the shape of every recorded name. */
  predicate IsName(n: string) {
    |n| > 0 && forall i :: 0 <= i < |n| ==> IsAsciiLetter(n[i])
  }

  /** Declarative reading of one match, as the span `[p, q)` of the name:
      a non-empty run of ASCII letters, followed by a colon and a space, and
      not preceded by a word character. The declared name is `s[p..q]`. */
  predicate IsDeclaration(s: string, p: nat, q: nat) {
    && p < q
    && q + 2 <= |s|
    && (forall k :: p <= k < q ==> IsAsciiLetter(s[k]))
    && s[q] == ':'
    && s[q + 1] == ' '
    && (p == 0 || !IsWordChar(s[p - 1]))
  }

  // ---------------------------------------------------------------------
  // The regular-expression engine
  // ---------------------------------------------------------------------

  /** The `\b` assertion at offset `i`: exactly one of the characters around
      `i` is a word character (outside the text counts as non-word). */
  predicate IsWordBoundary(s: string, i: nat)
    requires i <= |s|
  {
    (0 < i && IsWordChar(s[i - 1])) != (i < |s| && IsWordChar(s[i]))
  }

  /** Where the greedy `([A-Z]|[a-z])+` stops when started at `i`. */
  function LetterRunEnd(s: string, i: nat): (j: nat)
    requires i <= |s|
    ensures i <= j <= |s|
    ensures forall k :: i <= k < j ==> IsAsciiLetter(s[k])
    ensures j == |s| || !IsAsciiLetter(s[j])
    decreases |s| - i
  {
    if i < |s| && IsAsciiLetter(s[i]) then LetterRunEnd(s, i + 1) else i
  }

  /** Having taken `k` letters from `p`, try the tail `\b: `; on failure give
      one letter back and retry, down to the one letter `+` demands.
      Yields the end offset of the whole match. */
  function Backtrack(s: string, p: nat, k: nat): Option<nat>
    requires p + k <= |s|
    decreases k
  {
    if k == 0 then None
    else if IsWordBoundary(s, p + k) && p + k + 2 <= |s| && s[p + k] == ':' && s[p + k + 1] == ' '
    then Some(p + k + 2)
    else Backtrack(s, p, k - 1)
  }

  /** One attempt of the pattern anchored at offset `p`: the leading `\b`,
      then the greedy letter run with backtracking. */
  function MatchAt(s: string, p: nat): Option<nat>
    requires p <= |s|
  {
    if IsWordBoundary(s, p) then Backtrack(s, p, LetterRunEnd(s, p) - p) else None
  }

  /** The array `exec` returns: `m.index` and `m[0]`. */
  datatype RegexMatch = RegexMatch(index: nat, text: string)

  /** `String.prototype.substring`: both bounds clamped to the string, and
      swapped when the first exceeds the second. */
  function JsSubstring(s: string, start: int, end: int): string {
    var a := if start < 0 then 0 else if start > |s| then |s| else start;
    var b := if end < 0 then 0 else if end > |s| then |s| else end;
    if a <= b then s[a..b] else s[b..a]
  }

  /** `m[0].substring(0, m[0].length - 2)`: the match without its `": "`. */
  function MatchName(m: RegexMatch): string {
    JsSubstring(m.text, 0, |m.text| - 2)
  }

  /** Offset just past a match: the `lastIndex` the next `exec` starts from. */
  function MatchEnd(m: RegexMatch): nat {
    m.index + |m.text|
  }

  /** A match spans a declaration: its text is the slice of `s` it covers,
      the name followed by `": "`. */
  predicate SpansDeclaration(s: string, m: RegexMatch) {
    && m.index + 3 <= MatchEnd(m) <= |s|
    && m.text == s[m.index..MatchEnd(m)]
    && IsDeclaration(s, m.index, MatchEnd(m) - 2)
  }

  /** Matches in text order that do not overlap. */
  predicate InTextOrder(ms: seq<RegexMatch>) {
    forall i, j :: 0 <= i < j < |ms| ==> MatchEnd(ms[i]) <= ms[j].index
  }

  /** `pattern.exec(text)` with `pattern.lastIndex == lastIndex`: the first
      offset at or after `lastIndex` where the pattern matches. An attempt at
      offset `|s|` cannot match (the pattern needs a letter), so the search
      stops before it. */
  function ExecFrom(s: string, lastIndex: nat): (r: Option<RegexMatch>)
    ensures r.Some? ==> lastIndex <= r.value.index && SpansDeclaration(s, r.value)
    ensures forall p: nat, q: nat :: lastIndex <= p && (r.Some? ==> p < r.value.index) ==> !IsDeclaration(s, p, q)
    decreases |s| - lastIndex
  {
    if lastIndex >= |s| then
      None
    else
      MatchAtIsDeclaration(s, lastIndex);
      match MatchAt(s, lastIndex)
      case Some(e) => Some(RegexMatch(lastIndex, s[lastIndex..e]))
      case None => ExecFrom(s, lastIndex + 1)
  }

  /** All matches in the order successive `exec` calls return them. */
  function MatchAll(s: string, from: nat): (ms: seq<RegexMatch>)
    requires from <= |s|
    ensures forall i :: 0 <= i < |ms| ==> from <= ms[i].index && MatchEnd(ms[i]) <= |s|
    decreases |s| - from
  {
    match ExecFrom(s, from)
    case None => []
    case Some(m) => [m] + MatchAll(s, MatchEnd(m))
  }

  /** The names of a list of matches, in the same order. */
  function MatchNames(ms: seq<RegexMatch>): (ns: seq<string>)
    ensures |ns| == |ms|
    ensures forall i :: 0 <= i < |ms| ==> ns[i] == MatchName(ms[i])
  {
    seq(|ms|, i requires 0 <= i < |ms| => MatchName(ms[i]))
  }

  /** Every name the unbounded scan of `s` finds, in text order. */
  function DeclaredNames(s: string): seq<string> {
    MatchNames(MatchAll(s, 0))
  }

  /** How many matches the loop `while (m = exec()) && problems < max`
      processes when `available` matches exist. */
  function Limit(maxNumberOfProblems: int, available: nat): (k: nat)
    ensures k <= available
    ensures maxNumberOfProblems <= 0 ==> k == 0
    ensures 0 < maxNumberOfProblems ==> k <= maxNumberOfProblems && (k == available || k == maxNumberOfProblems)
  {
    if maxNumberOfProblems <= 0 then 0
    else if maxNumberOfProblems < available then maxNumberOfProblems
    else available
  }

  /** The names one validation pass records: the first matches of the scan,
      at most `maxNumberOfProblems` of them. */
  function FirstDeclarations(s: string, maxNumberOfProblems: int): (ns: seq<string>)
    ensures |ns| <= |DeclaredNames(s)|
    ensures maxNumberOfProblems <= 0 ==> ns == []
    ensures 0 < maxNumberOfProblems ==> |ns| == if maxNumberOfProblems < |DeclaredNames(s)| then maxNumberOfProblems else |DeclaredNames(s)|
    ensures ns == DeclaredNames(s)[..|ns|]
    ensures forall i :: 0 <= i < |ns| ==> IsName(ns[i])
  {
    var all := DeclaredNames(s);
    DeclaredNamesAreNames(s);
    all[..Limit(maxNumberOfProblems, |all|)]
  }

  // ---------------------------------------------------------------------
  // Lemmas
  // ---------------------------------------------------------------------

  /** A declaration's name is the match without its `": "`. */
  lemma MatchNameIsSpan(s: string, m: RegexMatch)
    requires m.index + 2 <= MatchEnd(m) <= |s|
    requires m.text == s[m.index..MatchEnd(m)]
    ensures MatchName(m) == s[m.index..MatchEnd(m) - 2]
  {
  }

  /** The name of a declaration is a non-empty run of letters. */
  lemma DeclarationName(s: string, p: nat, q: nat)
    requires IsDeclaration(s, p, q)
    ensures IsName(s[p..q])
  {
  }

  /** Two declarations at the same offset end at the same colon. */
  lemma DeclarationUnique(s: string, p: nat, q1: nat, q2: nat)
    requires IsDeclaration(s, p, q1) && IsDeclaration(s, p, q2)
    ensures q1 == q2
  {
  }

  /** The letter run of a declaration ends exactly at its colon. */
  lemma DeclarationRunEnd(s: string, p: nat, q: nat)
    requires IsDeclaration(s, p, q)
    ensures LetterRunEnd(s, p) == q
  {
  }

  /** Backtracking inside a run of letters never succeeds: the tail needs a
      colon right after the letters kept. */
  lemma {:induction false} BacktrackInsideRun(s: string, p: nat, k: nat)
    requires p + k < |s|
    requires forall i :: p < i <= p + k ==> IsAsciiLetter(s[i])
    ensures Backtrack(s, p, k) == None
    decreases k
  {
    if k > 0 {
      assert IsAsciiLetter(s[p + k]);
      BacktrackInsideRun(s, p, k - 1);
    }
  }

  /** Only the greedy length can complete the pattern. */
  lemma BacktrackGreedyOnly(s: string, p: nat)
    requires p <= |s|
    ensures var k := LetterRunEnd(s, p) - p;
      Backtrack(s, p, k) ==
        if 0 < k && IsWordBoundary(s, p + k) && p + k + 2 <= |s| && s[p + k] == ':' && s[p + k + 1] == ' '
        then Some(p + k + 2) else None
  {
    var k := LetterRunEnd(s, p) - p;
    if 0 < k {
      BacktrackInsideRun(s, p, k - 1);
    }
  }

  /** The engine's attempt at `p` succeeds exactly at declarations, and the
      match then spans the name and its `": "`. */
  lemma MatchAtIsDeclaration(s: string, p: nat)
    requires p <= |s|
    ensures MatchAt(s, p).Some? ==>
      p + 3 <= MatchAt(s, p).value <= |s| && IsDeclaration(s, p, MatchAt(s, p).value - 2)
    ensures forall q: nat :: IsDeclaration(s, p, q) ==> MatchAt(s, p) == Some(q + 2)
  {
    BacktrackGreedyOnly(s, p);
    if MatchAt(s, p).Some? {
      assert IsAsciiLetter(s[p]);
    }
    forall q: nat | IsDeclaration(s, p, q)
      ensures MatchAt(s, p) == Some(q + 2)
    {
      DeclarationRunEnd(s, p, q);
      assert IsAsciiLetter(s[p]) && IsAsciiLetter(s[q - 1]);
    }
  }

  /** A declaration that starts inside the span of another one, its name
      or its `": "`, is that same declaration: inside the letters the
      previous character is a letter, and past them sits `" "`. */
  lemma NoDeclarationInsideMatch(s: string, p0: nat, q0: nat, p: nat, q: nat)
    requires IsDeclaration(s, p0, q0)
    requires p0 <= p < q0 + 2
    ensures IsDeclaration(s, p, q) ==> p == p0 && q == q0
  {
  }

  /** Every match spans a declaration. */
  lemma {:induction false} MatchAllSound(s: string, from: nat)
    requires from <= |s|
    ensures forall i :: 0 <= i < |MatchAll(s, from)| ==> SpansDeclaration(s, MatchAll(s, from)[i])
    decreases |s| - from
  {
    match ExecFrom(s, from)
    case None =>
    case Some(m) =>
      var ms := MatchAll(s, from);
      MatchAllSound(s, MatchEnd(m));
      var rest := MatchAll(s, MatchEnd(m));
      assert ms == [m] + rest;
      forall i | 0 <= i < |ms|
        ensures SpansDeclaration(s, ms[i])
      {
        if i == 0 {
          assert ms[i] == m;
        } else {
          assert ms[i] == rest[i - 1];
        }
      }
  }

  /** The matches come in text order and do not overlap. */
  lemma {:induction false} MatchAllOrdered(s: string, from: nat)
    requires from <= |s|
    ensures InTextOrder(MatchAll(s, from))
    decreases |s| - from
  {
    match ExecFrom(s, from)
    case None =>
    case Some(m) =>
      var ms := MatchAll(s, from);
      MatchAllOrdered(s, MatchEnd(m));
      var rest := MatchAll(s, MatchEnd(m));
      assert ms == [m] + rest;
      forall i, j | 0 <= i < j < |ms|
        ensures MatchEnd(ms[i]) <= ms[j].index
      {
        assert ms[j].index == rest[j - 1].index;
        if 0 < i {
          assert MatchEnd(ms[i]) == MatchEnd(rest[i - 1]);
        }
      }
  }

  /** A declaration at or after `from` that starts before the end of the
      first match is that match. */
  lemma FirstMatchCovers(s: string, from: nat, p: nat, q: nat)
    requires ExecFrom(s, from).Some?
    requires from <= p < MatchEnd(ExecFrom(s, from).value)
    requires IsDeclaration(s, p, q)
    ensures p == ExecFrom(s, from).value.index
    ensures q + 2 == MatchEnd(ExecFrom(s, from).value)
  {
  }

  /** Some match of `ms` spans exactly the declaration `[p, q)`. */
  predicate HasMatch(ms: seq<RegexMatch>, p: nat, q: nat) {
    exists i :: 0 <= i < |ms| && ms[i].index == p && MatchEnd(ms[i]) == q + 2
  }

  /** Every declaration at or after `from` is among the matches. */
  lemma {:induction false} MatchAllComplete(s: string, from: nat)
    requires from <= |s|
    ensures forall p: nat, q: nat :: from <= p && IsDeclaration(s, p, q) ==> HasMatch(MatchAll(s, from), p, q)
    decreases |s| - from
  {
    match ExecFrom(s, from)
    case None =>
    case Some(m) =>
      var ms := MatchAll(s, from);
      var e := MatchEnd(m);
      MatchAllComplete(s, e);
      var rest := MatchAll(s, e);
      assert ms == [m] + rest;
      forall p: nat, q: nat | from <= p && IsDeclaration(s, p, q)
        ensures HasMatch(ms, p, q)
      {
        if p < e {
          FirstMatchCovers(s, from, p, q);
          assert ms[0] == m;
        } else {
          assert HasMatch(rest, p, q);
          var i :| 0 <= i < |rest| && rest[i].index == p && MatchEnd(rest[i]) == q + 2;
          assert ms[i + 1] == rest[i];
        }
      }
  }

  /** Every name the scan records is a non-empty run of ASCII letters. */
  lemma DeclaredNamesAreNames(s: string)
    ensures forall i :: 0 <= i < |DeclaredNames(s)| ==> IsName(DeclaredNames(s)[i])
  {
    MatchAllSound(s, 0);
    var ms := MatchAll(s, 0);
    forall i | 0 <= i < |ms|
      ensures IsName(DeclaredNames(s)[i])
    {
      assert SpansDeclaration(s, ms[i]);
      MatchNameIsSpan(s, ms[i]);
      DeclarationName(s, ms[i].index, MatchEnd(ms[i]) - 2);
    }
  }

  /** The offsets at which the scan records its names. */
  function DeclarationStarts(s: string): (ps: seq<nat>)
    ensures |ps| == |MatchAll(s, 0)|
    ensures forall i :: 0 <= i < |ps| ==> ps[i] == MatchAll(s, 0)[i].index
  {
    var ms := MatchAll(s, 0);
    seq(|ms|, i requires 0 <= i < |ms| => ms[i].index)
  }

  /** Each recorded name is the declaration starting at the matching offset
      of `DeclarationStarts`: the letters there, followed by `": "`, not
      preceded by a word character. */
  lemma DeclaredNamesSound(s: string)
    ensures |DeclaredNames(s)| == |DeclarationStarts(s)|
    ensures forall i :: 0 <= i < |DeclarationStarts(s)| ==>
      && IsDeclaration(s, DeclarationStarts(s)[i], DeclarationStarts(s)[i] + |DeclaredNames(s)[i]|)
      && DeclaredNames(s)[i] == s[DeclarationStarts(s)[i]..DeclarationStarts(s)[i] + |DeclaredNames(s)[i]|]
  {
    MatchAllSound(s, 0);
    var ms := MatchAll(s, 0);
    var ps := DeclarationStarts(s);
    var ns := DeclaredNames(s);
    forall i | 0 <= i < |ps|
      ensures IsDeclaration(s, ps[i], ps[i] + |ns[i]|) && ns[i] == s[ps[i]..ps[i] + |ns[i]|]
    {
      assert SpansDeclaration(s, ms[i]);
      MatchNameIsSpan(s, ms[i]);
      assert ps[i] + |ns[i]| == MatchEnd(ms[i]) - 2;
    }
  }

  /** The names are recorded in text order: their offsets strictly increase. */
  lemma DeclaredNamesOrdered(s: string)
    ensures forall i, j :: 0 <= i < j < |DeclarationStarts(s)| ==> DeclarationStarts(s)[i] < DeclarationStarts(s)[j]
  {
    MatchAllSound(s, 0);
    MatchAllOrdered(s, 0);
    var ms := MatchAll(s, 0);
    var ps := DeclarationStarts(s);
    forall i, j | 0 <= i < j < |ps|
      ensures ps[i] < ps[j]
    {
      assert SpansDeclaration(s, ms[i]);
      assert MatchEnd(ms[i]) <= ms[j].index;
    }
  }

  /** The position of a declaration among the matches. */
  lemma MatchIndexOf(s: string, p: nat, q: nat) returns (i: nat)
    requires IsDeclaration(s, p, q)
    ensures i < |MatchAll(s, 0)| && MatchAll(s, 0)[i].index == p && MatchEnd(MatchAll(s, 0)[i]) == q + 2
  {
    MatchAllComplete(s, 0);
    assert HasMatch(MatchAll(s, 0), p, q);
    i :| 0 <= i < |MatchAll(s, 0)| && MatchAll(s, 0)[i].index == p && MatchEnd(MatchAll(s, 0)[i]) == q + 2;
  }

  /** The name of the i-th match is the slice it spans before `": "`. */
  lemma MatchNameAt(s: string, i: nat)
    requires i < |MatchAll(s, 0)|
    ensures MatchAll(s, 0)[i].index + 2 <= MatchEnd(MatchAll(s, 0)[i]) <= |s|
    ensures MatchName(MatchAll(s, 0)[i]) == s[MatchAll(s, 0)[i].index..MatchEnd(MatchAll(s, 0)[i]) - 2]
  {
    MatchAllSound(s, 0);
    assert SpansDeclaration(s, MatchAll(s, 0)[i]);
    MatchNameIsSpan(s, MatchAll(s, 0)[i]);
  }

  /** One declaration of the text is recorded, at its own offset. */
  lemma DeclarationRecorded(s: string, p: nat, q: nat)
    requires IsDeclaration(s, p, q)
    ensures exists i :: 0 <= i < |DeclarationStarts(s)| && DeclarationStarts(s)[i] == p && DeclaredNames(s)[i] == s[p..q]
  {
    var i := MatchIndexOf(s, p, q);
    MatchNameAt(s, i);
    assert DeclarationStarts(s)[i] == p && DeclaredNames(s)[i] == s[p..q];
  }

  /** Every declaration of the text is recorded, at its own offset. */
  lemma DeclaredNamesComplete(s: string)
    ensures forall p: nat, q: nat :: IsDeclaration(s, p, q) ==>
      exists i :: 0 <= i < |DeclarationStarts(s)| && DeclarationStarts(s)[i] == p && DeclaredNames(s)[i] == s[p..q]
  {
    forall p: nat, q: nat | IsDeclaration(s, p, q)
      ensures exists i :: 0 <= i < |DeclarationStarts(s)| && DeclarationStarts(s)[i] == p && DeclaredNames(s)[i] == s[p..q]
    {
      DeclarationRecorded(s, p, q);
    }
  }
}
