/**
 The input sanitiser: lower-case, delete every listed pattern in turn, keep allowed characters,
 cut at 1024.

 Lower-casing a string and telling alphanumeric characters are parameters: the results hold
 whatever tables they come from.
 */
module Sanitizer {

  const LIMIT: nat := 1024

  const SQL_PATTERNS: seq<string> :=
    ["drop table", "select *", "insert into", "delete from", "update set", "union select"]
  const COMMAND_PATTERNS: seq<string> :=
    ["rm -rf", "del /f", "sudo", "wget", "curl", "nc -", "bash -", "sh -"]
  const PATH_PATTERNS: seq<string> :=
    ["../", "..\\", "/etc/", "c:\\", "system32", "/bin/", "/usr/"]
  const SCRIPT_PATTERNS: seq<string> :=
    ["<script", "javascript:", "data:", "vbscript:", "${", "%{"]

  // In the order the passes run.
  const PATTERNS: seq<string> := SQL_PATTERNS + COMMAND_PATTERNS + PATH_PATTERNS + SCRIPT_PATTERNS

  predicate StartsWith(s: string, p: string) {
    |p| <= |s| && s[..|p|] == p
  }

  // `s.replace(p, "")`: matches are found from the left and do not overlap.
  function Replace(s: string, p: string): string
    requires |p| > 0
  {
    if s == [] then []
    else if StartsWith(s, p) then Replace(s[|p|..], p)
    else [s[0]] + Replace(s[1..], p)
  }

  predicate Allowed(c: char, alphanumeric: char -> bool) {
    alphanumeric(c) || c == ' ' || c == '.' || c == '-' || c == '_' || c == ':' || c == '@'
  }

  function Filter(s: string, alphanumeric: char -> bool): string {
    if s == [] then []
    else if Allowed(s[0], alphanumeric) then [s[0]] + Filter(s[1..], alphanumeric)
    else Filter(s[1..], alphanumeric)
  }

  function Take(s: string): string {
    if |s| <= LIMIT then s else s[..LIMIT]
  }

  ghost predicate NonEmpty(patterns: seq<string>) {
    forall i | 0 <= i < |patterns| :: |patterns[i]| > 0
  }

  lemma PatternsNonEmpty()
    ensures NonEmpty(SQL_PATTERNS) && NonEmpty(COMMAND_PATTERNS) && NonEmpty(PATH_PATTERNS) && NonEmpty(SCRIPT_PATTERNS)
    ensures NonEmpty(PATTERNS)
  {
  }

  // One pass per pattern, in order.
  ghost function ReplaceAll(s: string, patterns: seq<string>): string
    requires NonEmpty(patterns)
  {
    if patterns == [] then s
    else Replace(ReplaceAll(s, patterns[..|patterns| - 1]), patterns[|patterns| - 1])
  }

  ghost function Sanitized(input: string, lower: string -> string, alphanumeric: char -> bool): string {
    PatternsNonEmpty();
    Take(Filter(ReplaceAll(lower(input), PATTERNS), alphanumeric))
  }

  /** The code: four loops of replacements, then the filter. */
  method SanitizeInput(input: string, lower: string -> string, alphanumeric: char -> bool) returns (r: string)
    ensures r == Sanitized(input, lower, alphanumeric)
  {
    PatternsNonEmpty();
    var cleaned := lower(input);
    ghost var low := cleaned;
    cleaned := ReplacePatterns(cleaned, SQL_PATTERNS);
    cleaned := ReplacePatterns(cleaned, COMMAND_PATTERNS);
    ReplaceAllConcat(low, SQL_PATTERNS, COMMAND_PATTERNS);
    cleaned := ReplacePatterns(cleaned, PATH_PATTERNS);
    ReplaceAllConcat(low, SQL_PATTERNS + COMMAND_PATTERNS, PATH_PATTERNS);
    cleaned := ReplacePatterns(cleaned, SCRIPT_PATTERNS);
    ReplaceAllConcat(low, SQL_PATTERNS + COMMAND_PATTERNS + PATH_PATTERNS, SCRIPT_PATTERNS);
    r := Take(Filter(cleaned, alphanumeric));
  }

  // One of the loops of the code.
  method ReplacePatterns(s: string, patterns: seq<string>) returns (cleaned: string)
    requires NonEmpty(patterns)
    ensures cleaned == ReplaceAll(s, patterns)
  {
    cleaned := s;
    for i := 0 to |patterns|
      invariant cleaned == ReplaceAll(s, patterns[..i])
    {
      assert patterns[..i + 1][..i] == patterns[..i];
      cleaned := Replace(cleaned, patterns[i]);
    }
    assert patterns[..|patterns|] == patterns;
  }

  lemma {:induction false} ReplaceAllConcat(s: string, p: seq<string>, q: seq<string>)
    requires NonEmpty(p) && NonEmpty(q)
    ensures NonEmpty(p + q) && ReplaceAll(s, p + q) == ReplaceAll(ReplaceAll(s, p), q)
  {
    if q == [] {
      assert p + q == p;
    } else {
      ReplaceAllConcat(s, p, q[..|q| - 1]);
      assert (p + q)[..|p + q| - 1] == p + q[..|q| - 1];
    }
  }

  // --- Subsequences ---

  ghost predicate Subsequence(a: string, b: string) {
    if a == [] then true
    else if b == [] then false
    else (a[0] == b[0] && Subsequence(a[1..], b[1..])) || Subsequence(a, b[1..])
  }

  lemma {:induction false} SubsequenceSize(a: string, b: string)
    requires Subsequence(a, b)
    ensures |a| <= |b| && (|a| == |b| ==> a == b)
    ensures forall c :: c in a ==> c in b
  {
    if a != [] {
      assert forall c | c in a :: c == a[0] || c in a[1..];
      if a[0] == b[0] && Subsequence(a[1..], b[1..]) {
        SubsequenceSize(a[1..], b[1..]);
      } else {
        SubsequenceSize(a, b[1..]);
      }
    }
  }

  lemma {:induction false} SubsequenceTrans(a: string, b: string, c: string)
    requires Subsequence(a, b) && Subsequence(b, c)
    ensures Subsequence(a, c)
    decreases |b| + |c|
  {
    if a != [] {
      if b[0] == c[0] && Subsequence(b[1..], c[1..]) {
        if a[0] == b[0] && Subsequence(a[1..], b[1..]) {
          SubsequenceTrans(a[1..], b[1..], c[1..]);
        } else {
          SubsequenceTrans(a, b[1..], c[1..]);
        }
      } else {
        SubsequenceTrans(a, b, c[1..]);
      }
    }
  }

  lemma {:induction false} SubsequenceSelf(a: string)
    ensures Subsequence(a, a)
  {
    if a != [] {
      SubsequenceSelf(a[1..]);
    }
  }

  lemma {:induction false} DropIsSubsequence(s: string, n: nat, a: string)
    requires n <= |s| && Subsequence(a, s[n..])
    ensures Subsequence(a, s)
  {
    if n > 0 {
      assert s[1..][n - 1..] == s[n..];
      DropIsSubsequence(s[1..], n - 1, a);
    }
  }

  lemma {:induction false} PrefixIsSubsequence(s: string, n: nat)
    requires n <= |s|
    ensures Subsequence(s[..n], s)
  {
    if n > 0 {
      PrefixIsSubsequence(s[1..], n - 1);
      assert s[..n][1..] == s[1..][..n - 1];
    }
  }

  lemma {:induction false} ReplaceIsSubsequence(s: string, p: string)
    requires |p| > 0
    ensures Subsequence(Replace(s, p), s)
  {
    if s != [] {
      if StartsWith(s, p) {
        ReplaceIsSubsequence(s[|p|..], p);
        DropIsSubsequence(s, |p|, Replace(s[|p|..], p));
      } else {
        ReplaceIsSubsequence(s[1..], p);
      }
    }
  }

  lemma {:induction false} FilterIsSubsequence(s: string, alphanumeric: char -> bool)
    ensures Subsequence(Filter(s, alphanumeric), s)
    ensures forall c | c in Filter(s, alphanumeric) :: Allowed(c, alphanumeric)
  {
    if s != [] {
      FilterIsSubsequence(s[1..], alphanumeric);
    }
  }

  lemma {:induction false} ReplaceAllIsSubsequence(s: string, patterns: seq<string>)
    requires NonEmpty(patterns)
    ensures Subsequence(ReplaceAll(s, patterns), s)
  {
    if patterns == [] {
      SubsequenceSelf(s);
    } else {
      var n := |patterns| - 1;
      var before := ReplaceAll(s, patterns[..n]);
      ReplaceAllIsSubsequence(s, patterns[..n]);
      ReplaceIsSubsequence(before, patterns[n]);
      SubsequenceTrans(Replace(before, patterns[n]), before, s);
    }
  }

  predicate Contains(s: string, p: string) {
    exists i :: 0 <= i <= |s| && StartsWith(s[i..], p)
  }

  lemma ContainedCharacters(s: string, p: string, c: char)
    requires Contains(s, p) && c in p
    ensures c in s
  {
    var i :| 0 <= i <= |s| && StartsWith(s[i..], p);
    var j :| 0 <= j < |p| && p[j] == c;
    assert s[i..][j] == s[i + j];
  }

  /** For every input: the output is a subsequence of the lower-cased input, so nothing is
      invented or reordered; it has at most 1024 characters, all allowed; so no pattern that
      has a disallowed character can be in it. */
  lemma OutputIsSafe(input: string, lower: string -> string, alphanumeric: char -> bool)
    ensures var r := Sanitized(input, lower, alphanumeric);
            && Subsequence(r, lower(input))
            && |r| <= 1024
            && (forall c | c in r :: Allowed(c, alphanumeric))
            && forall p, c | Contains(r, p) && c in p :: Allowed(c, alphanumeric)
  {
    PatternsNonEmpty();
    var replaced := ReplaceAll(lower(input), PATTERNS);
    var filtered := Filter(replaced, alphanumeric);
    var r := Take(filtered);
    ReplaceAllIsSubsequence(lower(input), PATTERNS);
    FilterIsSubsequence(replaced, alphanumeric);
    SubsequenceTrans(filtered, replaced, lower(input));
    PrefixIsSubsequence(filtered, |r|);
    assert r == filtered[..|r|];
    SubsequenceTrans(r, filtered, lower(input));
    SubsequenceSize(r, filtered);
    forall p, c | Contains(r, p) && c in p ensures Allowed(c, alphanumeric) {
      ContainedCharacters(r, p, c);
    }
  }

  // The listed patterns that have a disallowed character, and those that have none.
  const NEVER: seq<string> :=
    ["select *", "del /f", "../", "..\\", "/etc/", "c:\\", "/bin/", "/usr/", "<script", "${", "%{"]
  const MAY: seq<string> :=
    ["drop table", "insert into", "delete from", "update set", "union select",
     "rm -rf", "sudo", "wget", "curl", "nc -", "bash -", "sh -", "system32", "javascript:", "data:", "vbscript:"]

  // Whatever the tables say about letters and digits, the first kind never survives.
  lemma ListedPatternsNeverSurvive(input: string, lower: string -> string, alphanumeric: char -> bool, p: string)
    requires p in NEVER
    requires !alphanumeric('/') && !alphanumeric('\\') && !alphanumeric('<') && !alphanumeric('$')
    requires !alphanumeric('%') && !alphanumeric('*')
    ensures !Contains(Sanitized(input, lower, alphanumeric), p)
  {
    OutputIsSafe(input, lower, alphanumeric);
    var c := if '/' in p then '/' else if '\\' in p then '\\' else if '<' in p then '<'
             else if '$' in p then '$' else if '%' in p then '%' else '*';
    assert c in p;
  }

  // --- What a pass deletes ---

  // The pieces joined by the pattern, and the pieces alone.
  function Join(pieces: seq<string>, p: string): string
    requires pieces != []
  {
    if |pieces| == 1 then pieces[0] else pieces[0] + p + Join(pieces[1..], p)
  }

  function Concat(pieces: seq<string>): string {
    if pieces == [] then "" else pieces[0] + Concat(pieces[1..])
  }

  // In `q` followed by the pattern, the pattern first occurs at the end.
  ghost predicate FirstAtEnd(q: string, p: string) {
    forall i | 0 <= i < |q| :: !StartsWith((q + p)[i..], p)
  }

  /** The text is cut at the pattern, from the left: each piece but the last ends where the pattern first
      occurs after it began, and the last piece does not have it. */
  ghost predicate IsCutAt(pieces: seq<string>, s: string, p: string) {
    && pieces != [] && Join(pieces, p) == s
    && (forall k | 0 <= k < |pieces| - 1 :: FirstAtEnd(pieces[k], p))
    && !Contains(pieces[|pieces| - 1], p)
  }

  lemma JoinCons(q: string, rest: seq<string>, p: string)
    requires rest != []
    ensures Join([q] + rest, p) == q + p + Join(rest, p) && Concat([q] + rest) == q + Concat(rest)
  {
    assert ([q] + rest)[1..] == rest;
  }

  lemma CutCons(q: string, rest: seq<string>, s: string, p: string)
    requires IsCutAt(rest, s, p) && FirstAtEnd(q, p)
    ensures IsCutAt([q] + rest, q + p + s, p)
  {
    var pieces := [q] + rest;
    JoinCons(q, rest, p);
    assert pieces[|pieces| - 1] == rest[|rest| - 1];
    forall k | 0 <= k < |pieces| - 1 ensures FirstAtEnd(pieces[k], p) {
      assert k > 0 ==> pieces[k] == rest[k - 1];
    }
  }

  // One more character in front of a piece, where the pattern does not start.
  lemma FirstAtEndLater(c: char, q: string, p: string, tail: string)
    requires FirstAtEnd(q, p) && !StartsWith([c] + q + p + tail, p)
    ensures FirstAtEnd([c] + q, p)
  {
    var q' := [c] + q;
    forall i | 0 <= i < |q'| ensures !StartsWith((q' + p)[i..], p) {
      if i == 0 {
        assert (q' + p)[0..] == q' + p && [c] + q + p + tail == q' + p + tail;
        assert (q' + p)[..|p|] == (q' + p + tail)[..|p|];
      } else {
        assert (q' + p)[i..] == (q + p)[i - 1..];
      }
    }
  }

  lemma NotContainedLater(c: char, q: string, p: string)
    requires |p| > 0 && !Contains(q, p) && !StartsWith([c] + q, p)
    ensures !Contains([c] + q, p)
  {
    var q' := [c] + q;
    forall i | 0 <= i <= |q'| ensures !StartsWith(q'[i..], p) {
      if i == 0 {
        assert q'[0..] == q';
      } else {
        assert q'[i..] == q[i - 1..];
      }
    }
  }

  // A character in front of a cut text, where the pattern does not start, goes to the first piece.
  lemma CutLater(c: char, pieces: seq<string>, s: string, p: string)
    requires |p| > 0 && IsCutAt(pieces, s, p) && !StartsWith([c] + s, p)
    ensures IsCutAt([[c] + pieces[0]] + pieces[1..], [c] + s, p)
    ensures Concat([[c] + pieces[0]] + pieces[1..]) == [c] + Concat(pieces)
  {
    var q, rest := pieces[0], pieces[1..];
    if rest == [] {
      assert pieces == [q] && [[c] + q] + rest == [[c] + q];
      NotContainedLater(c, q, p);
    } else {
      assert pieces == [q] + rest;
      JoinCons(q, rest, p);
      JoinCons([c] + q, rest, p);
      var tail := Join(rest, p);
      assert [c] + s == [c] + q + p + tail;
      FirstAtEndLater(c, q, p, tail);
      forall k | 0 <= k < |rest| - 1 ensures FirstAtEnd(rest[k], p) {
        assert rest[k] == pieces[k + 1];
      }
      assert IsCutAt(rest, tail, p);
      CutCons([c] + q, rest, tail, p);
    }
    assert [c] + q + Concat(rest) == [c] + (q + Concat(rest));
  }

  /** What one pass does: it deletes every occurrence of the pattern that is met from the left, and
      nothing else. */
  lemma {:induction false} ReplaceDeletesAll(s: string, p: string) returns (pieces: seq<string>)
    requires |p| > 0
    ensures IsCutAt(pieces, s, p) && Replace(s, p) == Concat(pieces)
  {
    if s == [] {
      pieces := [""];
      assert forall i | 0 <= i <= 0 :: ""[i..] == "";
    } else if StartsWith(s, p) {
      var rest := ReplaceDeletesAll(s[|p|..], p);
      pieces := [""] + rest;
      CutCons("", rest, s[|p|..], p);
      JoinCons("", rest, p);
      assert s == "" + p + s[|p|..];
    } else {
      var rest := ReplaceDeletesAll(s[1..], p);
      assert s == [s[0]] + s[1..];
      CutLater(s[0], rest, s[1..], p);
      pieces := [[s[0]] + rest[0]] + rest[1..];
    }
  }

  // The parts of a text that begins with a piece and the pattern.
  lemma PartsOf(q: string, p: string, tail: string, s: string)
    requires s == q + p + tail
    ensures StartsWith(s[|q|..], p) && s[..|q| + |p|] == q + p && s[|q| + |p|..] == tail
  {
    assert s[|q|..] == p + tail;
    assert s[|q| + |p|..] == s[|q|..][|p|..];
  }

  // What follows the first piece and the pattern is cut at the other pieces.
  lemma RestIsCut(pieces: seq<string>, s: string, p: string)
    requires IsCutAt(pieces, s, p) && |pieces| > 1
    ensures IsCutAt(pieces[1..], Join(pieces[1..], p), p)
  {
    forall k | 0 <= k < |pieces[1..]| - 1 ensures FirstAtEnd(pieces[1..][k], p) {
      assert pieces[1..][k] == pieces[k + 1];
    }
  }

  // Where the first piece ends, the pattern starts.
  lemma PatternAfter(pieces: seq<string>, s: string, p: string)
    requires IsCutAt(pieces, s, p) && |pieces| > 1
    ensures |pieces[0]| + |p| <= |s| && StartsWith(s[|pieces[0]|..], p) && Contains(s, p)
    ensures s[..|pieces[0]| + |p|] == pieces[0] + p
    ensures IsCutAt(pieces[1..], s[|pieces[0]| + |p|..], p)
  {
    PartsOf(pieces[0], p, Join(pieces[1..], p), s);
    RestIsCut(pieces, s, p);
  }

  lemma MatchInside(q: string, p: string, s: string, n: nat)
    requires |q| + |p| <= |s| && s[..|q| + |p|] == q + p
    requires n <= |s| && StartsWith(s[n..], p)
    ensures n < |q| ==> StartsWith((q + p)[n..], p)
  {
    if n < |q| {
      assert (q + p)[n..][..|p|] == s[n..][..|p|];
    }
  }

  // A piece that ends at the first occurrence does not go on past another.
  lemma FirstIsFirst(q: string, p: string, s: string, n: nat)
    requires FirstAtEnd(q, p) && |q| + |p| <= |s| && s[..|q| + |p|] == q + p
    requires n <= |s| && StartsWith(s[n..], p)
    ensures |q| <= n
  {
    MatchInside(q, p, s, n);
  }

  // A first piece cannot go on past a place where the pattern starts.
  lemma NoLongerFirst(a: seq<string>, b: seq<string>, s: string, p: string)
    requires |p| > 0 && IsCutAt(a, s, p) && IsCutAt(b, s, p) && |a| > 1
    ensures |b| > 1 && |b[0]| <= |a[0]|
  {
    PatternAfter(a, s, p);
    if |b| > 1 {
      PatternAfter(b, s, p);
      FirstIsFirst(b[0], p, s, |a[0]|);
    }
  }

  /** There is only one such cut, so the law of `ReplaceDeletesAll` leaves a pass no choice. */
  lemma {:induction false} CutIsUnique(a: seq<string>, b: seq<string>, s: string, p: string)
    requires |p| > 0 && IsCutAt(a, s, p) && IsCutAt(b, s, p)
    ensures a == b
    decreases |a| + |b|
  {
    if |a| > 1 || |b| > 1 {
      if |a| > 1 {
        NoLongerFirst(a, b, s, p);
      }
      if |b| > 1 {
        NoLongerFirst(b, a, s, p);
      }
      PatternAfter(a, s, p);
      PatternAfter(b, s, p);
      assert a[0] == s[..|a[0]|] == b[0];
      CutIsUnique(a[1..], b[1..], s[|a[0]| + |p|..], p);
      assert a == [a[0]] + a[1..] && b == [b[0]] + b[1..];
    }
  }

  // --- The whole pipeline ---

  // One pass over a text: the pieces between the occurrences of the pattern.
  ghost predicate Deletes(s: string, p: string, r: string) {
    exists pieces :: IsCutAt(pieces, s, p) && r == Concat(pieces)
  }

  // The filter keeps each allowed character and drops each of the others.
  lemma {:induction false} FilterConcat(a: string, b: string, alphanumeric: char -> bool)
    ensures Filter(a + b, alphanumeric) == Filter(a, alphanumeric) + Filter(b, alphanumeric)
  {
    if a == [] {
      assert a + b == b;
    } else {
      assert (a + b)[1..] == a[1..] + b;
      FilterConcat(a[1..], b, alphanumeric);
    }
  }

  lemma FilterOne(c: char, alphanumeric: char -> bool)
    ensures Filter([c], alphanumeric) ==
            if alphanumeric(c) || c in {' ', '.', '-', '_', ':', '@'} then [c] else []
  {
    assert [c][1..] == [];
  }

  lemma {:induction false} PassesAre(s: string, patterns: seq<string>) returns (texts: seq<string>)
    requires NonEmpty(patterns)
    ensures |texts| == |patterns| + 1 && texts[0] == s && texts[|patterns|] == ReplaceAll(s, patterns)
    ensures forall k | 0 <= k < |patterns| :: Deletes(texts[k], patterns[k], texts[k + 1])
  {
    if patterns == [] {
      texts := [s];
    } else {
      var n := |patterns| - 1;
      var before := PassesAre(s, patterns[..n]);
      var last := ReplaceAll(s, patterns);
      var pieces := ReplaceDeletesAll(before[n], patterns[n]);
      texts := before + [last];
      forall k | 0 <= k < |patterns| ensures Deletes(texts[k], patterns[k], texts[k + 1]) {
        if k < n {
          assert texts[k] == before[k] && texts[k + 1] == before[k + 1] && patterns[k] == patterns[..n][k];
        }
      }
    }
  }

  /** The whole function: 27 texts after the lower-cased input, each with every occurrence of one pattern
      deleted; of the last the allowed characters; and of those the first 1024. */
  lemma {:induction false} SanitizedIs(input: string, lower: string -> string, alphanumeric: char -> bool)
    returns (texts: seq<string>, kept: string)
    ensures |texts| == 28 && |PATTERNS| == 27 && texts[0] == lower(input)
    ensures forall k | 0 <= k < 27 :: Deletes(texts[k], PATTERNS[k], texts[k + 1])
    ensures kept == Filter(texts[27], alphanumeric)
    ensures var r := Sanitized(input, lower, alphanumeric);
            r <= kept && |r| == if |kept| <= 1024 then |kept| else 1024
  {
    PatternsNonEmpty();
    texts := PassesAre(lower(input), PATTERNS);
    kept := Filter(texts[27], alphanumeric);
  }

  // One pass over the source's first attack pattern: the climbs go, the path stays.
  lemma ClimbsAreDeleted(path: string)
    requires '.' !in path
    ensures Replace("../" + ("../" + ("../" + path)), "../") == path
  {
    MatchGoes("../" + ("../" + ("../" + path)), "../", "../" + ("../" + path));
    MatchGoes("../" + ("../" + path), "../", "../" + path);
    MatchGoes("../" + path, "../", path);
    ReplaceUnchangedIff(path, "../");
    if Contains(path, "../") {
      ContainedCharacters(path, "../", '.');
    }
  }

  lemma MatchGoes(s: string, p: string, tail: string)
    requires |p| > 0 && s == p + tail
    ensures Replace(s, p) == Replace(tail, p)
  {
    assert s[|p|..] == tail;
  }

  // --- What is left alone ---

  lemma {:induction false} ReplaceUnchangedIff(s: string, p: string)
    requires |p| > 0
    ensures Replace(s, p) == s <==> !Contains(s, p)
    ensures |Replace(s, p)| <= |s|
  {
    if s == [] {
      assert forall i | 0 <= i <= |s| :: s[i..] == [];
    } else if StartsWith(s, p) {
      assert s[0..] == s;
      ReplaceUnchangedIff(s[|p|..], p);
    } else {
      ReplaceUnchangedIff(s[1..], p);
      assert s[0..] == s;
      assert forall i | 1 <= i <= |s| :: s[i..] == s[1..][i - 1..];
      if Contains(s, p) {
        var i :| 0 <= i <= |s| && StartsWith(s[i..], p);
        assert s[1..][i - 1..] == s[i..];
      }
      if Contains(s[1..], p) {
        var i :| 0 <= i <= |s[1..]| && StartsWith(s[1..][i..], p);
        assert s[i + 1..] == s[1..][i..];
      }
      assert Replace(s, p)[1..] == Replace(s[1..], p);
    }
  }

  ghost predicate FreeOf(s: string, patterns: seq<string>) {
    forall p | p in patterns :: !Contains(s, p)
  }

  lemma {:induction false} ReplaceAllUnchangedIff(s: string, patterns: seq<string>)
    requires NonEmpty(patterns)
    ensures ReplaceAll(s, patterns) == s <==> FreeOf(s, patterns)
  {
    if patterns != [] {
      var n := |patterns| - 1;
      var before := ReplaceAll(s, patterns[..n]);
      ReplaceAllUnchangedIff(s, patterns[..n]);
      ReplaceUnchangedIff(before, patterns[n]);
      ReplaceAllIsSubsequence(s, patterns[..n]);
      SubsequenceSize(before, s);
      assert forall p :: p in patterns <==> p in patterns[..n] || p == patterns[n];
    }
  }

  lemma {:induction false} FilterUnchangedIff(s: string, alphanumeric: char -> bool)
    ensures Filter(s, alphanumeric) == s <==> forall c | c in s :: Allowed(c, alphanumeric)
    ensures |Filter(s, alphanumeric)| <= |s|
  {
    if s != [] {
      FilterUnchangedIff(s[1..], alphanumeric);
      assert forall c | c in s :: c == s[0] || c in s[1..];
      if Allowed(s[0], alphanumeric) {
        assert Filter(s, alphanumeric)[1..] == Filter(s[1..], alphanumeric);
      }
    }
  }

  // Lower-casing yields lower-case characters only, and leaves them alone.
  ghost predicate IsLowerCasing(lower: string -> string, isLower: char -> bool) {
    && (forall s, c | c in lower(s) :: isLower(c))
    && (forall s | (forall c | c in s :: isLower(c)) :: lower(s) == s)
  }

  lemma OutputIsLowerCase(input: string, lower: string -> string, isLower: char -> bool, alphanumeric: char -> bool)
    requires IsLowerCasing(lower, isLower)
    ensures var r := Sanitized(input, lower, alphanumeric); lower(r) == r
  {
    OutputIsSafe(input, lower, alphanumeric);
    SubsequenceSize(Sanitized(input, lower, alphanumeric), lower(input));
  }

  /** Exactly which inputs come back unchanged: the ones that are already lower-case, made of
      allowed characters, short enough and free of every listed pattern. */
  lemma UnchangedIff(input: string, lower: string -> string, isLower: char -> bool, alphanumeric: char -> bool)
    requires IsLowerCasing(lower, isLower)
    ensures Sanitized(input, lower, alphanumeric) == input <==>
            && lower(input) == input
            && (forall c | c in input :: Allowed(c, alphanumeric))
            && |input| <= LIMIT
            && FreeOf(input, PATTERNS)
  {
    OutputIsLowerCase(input, lower, isLower, alphanumeric);
    if lower(input) == input {
      UnchangedLower(input, lower, alphanumeric);
    }
  }

  lemma UnchangedLower(input: string, lower: string -> string, alphanumeric: char -> bool)
    requires lower(input) == input
    ensures Sanitized(input, lower, alphanumeric) == input <==>
            && (forall c | c in input :: Allowed(c, alphanumeric))
            && |input| <= LIMIT
            && FreeOf(input, PATTERNS)
  {
    PatternsNonEmpty();
    var replaced := ReplaceAll(input, PATTERNS);
    var filtered := Filter(replaced, alphanumeric);
    ReplaceAllUnchangedIff(input, PATTERNS);
    FilterUnchangedIff(replaced, alphanumeric);
    FilterIsSubsequence(replaced, alphanumeric);
    ReplaceAllIsSubsequence(input, PATTERNS);
    SubsequenceSize(filtered, replaced);
    SubsequenceSize(replaced, input);
  }

  /** Sanitising twice is the same as sanitising once exactly when the first output is free of every
      listed pattern. */
  lemma IdempotentIff(input: string, lower: string -> string, isLower: char -> bool, alphanumeric: char -> bool)
    requires IsLowerCasing(lower, isLower)
    ensures var r := Sanitized(input, lower, alphanumeric);
            Sanitized(r, lower, alphanumeric) == r <==> FreeOf(r, PATTERNS)
  {
    OutputIsSafe(input, lower, alphanumeric);
    OutputIsLowerCase(input, lower, isLower, alphanumeric);
    UnchangedLower(Sanitized(input, lower, alphanumeric), lower, alphanumeric);
  }

  // --- What can come out ---

  // What the Unicode tables say about printable ASCII.
  ghost predicate AsciiTables(isLower: char -> bool, alphanumeric: char -> bool) {
    forall c | ' ' <= c <= '~' ::
      && (alphanumeric(c) <==> 'a' <= c <= 'z' || 'A' <= c <= 'Z' || '0' <= c <= '9')
      && (isLower(c) <==> !('A' <= c <= 'Z'))
  }

  // The tables lower-casing and filtering go by.
  ghost predicate Tables(lower: string -> string, isLower: char -> bool, alphanumeric: char -> bool) {
    IsLowerCasing(lower, isLower) && AsciiTables(isLower, alphanumeric)
  }

  // A character the filter drops and no pattern has.
  const MARK := '!'

  // Every character followed by the mark.
  function Marked(r: string): string {
    if r == [] then [] else [r[0], MARK] + Marked(r[1..])
  }

  lemma {:induction false} MarkedAt(r: string, i: nat)
    requires i < |Marked(r)|
    ensures if i % 2 == 1 then Marked(r)[i] == MARK else i / 2 < |r| && Marked(r)[i] == r[i / 2]
  {
    if i >= 2 {
      MarkedAt(r[1..], i - 2);
      assert Marked(r)[i] == Marked(r[1..])[i - 2];
    }
  }

  lemma FilterCons(c: char, s: string, alphanumeric: char -> bool)
    ensures Filter([c] + s, alphanumeric) == (if Allowed(c, alphanumeric) then [c] else []) + Filter(s, alphanumeric)
  {
    assert ([c] + s)[0] == c && ([c] + s)[1..] == s;
  }

  lemma {:induction false} MarkedFilter(r: string, alphanumeric: char -> bool)
    requires !Allowed(MARK, alphanumeric) && forall c | c in r :: Allowed(c, alphanumeric)
    ensures Filter(Marked(r), alphanumeric) == r
  {
    if r != [] {
      var c, rest := r[0], Marked(r[1..]);
      MarkedFilter(r[1..], alphanumeric);
      FilterCons(MARK, rest, alphanumeric);
      FilterCons(c, [MARK] + rest, alphanumeric);
      assert Marked(r) == [c] + ([MARK] + rest);
      assert r == [c] + r[1..];
    }
  }

  lemma {:induction false} MarkedMembers(r: string, c: char)
    requires c in Marked(r)
    ensures c == MARK || c in r
  {
    if c != r[0] && c != MARK {
      assert c in Marked(r[1..]);
      MarkedMembers(r[1..], c);
    }
  }

  // At least two characters, all of them printable ASCII other than capitals and the mark.
  ghost predicate IsPlain(p: string) {
    2 <= |p| <= LIMIT && forall i | 0 <= i < |p| :: ' ' <= p[i] <= '~' && !('A' <= p[i] <= 'Z') && p[i] != MARK
  }

  ghost predicate AllPlain(patterns: seq<string>) {
    forall i | 0 <= i < |patterns| :: IsPlain(patterns[i])
  }

  lemma SqlIsPlain()
    ensures AllPlain(SQL_PATTERNS)
  {
    SqlIsPlainFirst();
    SqlIsPlainLast();
    assert forall i | 3 <= i < 6 :: SQL_PATTERNS[i] == SQL_PATTERNS[3..][i - 3];
    assert forall i | 0 <= i < 3 :: SQL_PATTERNS[i] == SQL_PATTERNS[..3][i];
  }

  lemma SqlIsPlainFirst()
    ensures AllPlain(SQL_PATTERNS[..3])
  {
    assert SQL_PATTERNS[..3] == ["drop table", "select *", "insert into"];
  }

  lemma SqlIsPlainLast()
    ensures AllPlain(SQL_PATTERNS[3..])
  {
    assert SQL_PATTERNS[3..] == ["delete from", "update set", "union select"];
  }

  lemma CommandIsPlain()
    ensures AllPlain(COMMAND_PATTERNS)
  {
  }

  lemma PathIsPlain()
    ensures AllPlain(PATH_PATTERNS)
  {
  }

  lemma ScriptIsPlain()
    ensures AllPlain(SCRIPT_PATTERNS)
  {
  }

  lemma PatternsArePlain(p: string)
    requires p in PATTERNS
    ensures IsPlain(p)
  {
    SqlIsPlain();
    CommandIsPlain();
    PathIsPlain();
    ScriptIsPlain();
  }

  // Of two neighbours in a marked text one is the mark.
  lemma MarkedHasNone(r: string, p: string)
    requires IsPlain(p)
    ensures !Contains(Marked(r), p)
  {
    var s := Marked(r);
    if Contains(s, p) {
      var i :| 0 <= i <= |s| && StartsWith(s[i..], p);
      assert s[i] == s[i..][0] == p[0] && s[i + 1] == s[i..][1] == p[1];
      MarkedAt(r, i);
      MarkedAt(r, i + 1);
    }
  }

  lemma MarkedIsFree(r: string)
    ensures FreeOf(Marked(r), PATTERNS)
  {
    forall p | p in PATTERNS ensures !Contains(Marked(r), p) {
      PatternsArePlain(p);
      MarkedHasNone(r, p);
    }
  }

  // A text of allowed lower-case characters that is short enough.
  ghost predicate IsClean(r: string, isLower: char -> bool, alphanumeric: char -> bool) {
    |r| <= LIMIT && forall c | c in r :: Allowed(c, alphanumeric) && isLower(c)
  }

  lemma MarkedComesOut(r: string, lower: string -> string, isLower: char -> bool, alphanumeric: char -> bool)
    requires Tables(lower, isLower, alphanumeric) && IsClean(r, isLower, alphanumeric)
    ensures Sanitized(Marked(r), lower, alphanumeric) == r
  {
    var s := Marked(r);
    forall c | c in s ensures isLower(c) {
      MarkedMembers(r, c);
    }
    assert lower(s) == s;
    PatternsNonEmpty();
    MarkedIsFree(r);
    ReplaceAllUnchangedIff(s, PATTERNS);
    MarkedFilter(r, alphanumeric);
  }

  /** Exactly what can come out: every text of at most 1024 allowed lower-case characters, listed
      patterns included, is the output for some input, and nothing else is. */
  lemma {:induction false} OutputsAre(r: string, lower: string -> string, isLower: char -> bool,
                                      alphanumeric: char -> bool)
    requires Tables(lower, isLower, alphanumeric)
    ensures (exists input :: Sanitized(input, lower, alphanumeric) == r) <==> IsClean(r, isLower, alphanumeric)
  {
    if IsClean(r, isLower, alphanumeric) {
      MarkedComesOut(r, lower, isLower, alphanumeric);
    }
    if exists input :: Sanitized(input, lower, alphanumeric) == r {
      var input :| Sanitized(input, lower, alphanumeric) == r;
      OutputIsSafe(input, lower, alphanumeric);
      SubsequenceSize(r, lower(input));
    }
  }

  lemma Partition(p: string)
    ensures p in PATTERNS <==> p in NEVER || p in MAY
  {
    assert forall q | q in SQL_PATTERNS :: q in NEVER || q in MAY;
    assert forall q | q in COMMAND_PATTERNS :: q in NEVER || q in MAY;
    assert forall q | q in PATH_PATTERNS :: q in NEVER || q in MAY;
    assert forall q | q in SCRIPT_PATTERNS :: q in NEVER || q in MAY;
    assert forall q | q in NEVER :: q in PATTERNS;
    assert forall q | q in MAY :: q in PATTERNS;
  }

  lemma NeverHasDisallowed(p: string, isLower: char -> bool, alphanumeric: char -> bool)
    requires p in NEVER && AsciiTables(isLower, alphanumeric)
    ensures exists c :: c in p && !Allowed(c, alphanumeric)
  {
    var c := if '/' in p then '/' else if '\\' in p then '\\' else if '<' in p then '<'
             else if '$' in p then '$' else if '%' in p then '%' else '*';
    assert c in p && !Allowed(c, alphanumeric);
  }

  // Letters, digits and the other characters the filter keeps.
  ghost predicate Keeps(p: string) {
    && |p| <= LIMIT
    && forall i | 0 <= i < |p| ::
         'a' <= p[i] <= 'z' || '0' <= p[i] <= '9' || p[i] == ' ' || p[i] == '-' || p[i] == ':'
  }

  ghost predicate AllKeep(patterns: seq<string>) {
    forall i | 0 <= i < |patterns| :: Keeps(patterns[i])
  }

  lemma MayFirst()
    ensures AllKeep(MAY[..8])
  {
    assert MAY[..8] == ["drop table", "insert into", "delete from", "update set", "union select",
                        "rm -rf", "sudo", "wget"];
  }

  lemma MayLast()
    ensures AllKeep(MAY[8..])
  {
    assert MAY[8..] == ["curl", "nc -", "bash -", "sh -", "system32", "javascript:", "data:", "vbscript:"];
  }

  lemma MayHasNone(p: string, isLower: char -> bool, alphanumeric: char -> bool)
    requires p in MAY && AsciiTables(isLower, alphanumeric)
    ensures IsClean(p, isLower, alphanumeric)
  {
    MayFirst();
    MayLast();
    var i :| 0 <= i < |MAY| && MAY[i] == p;
    assert MAY[i] == if i < 8 then MAY[..8][i] else MAY[8..][i - 8];
    assert Keeps(p);
    forall c | c in p ensures Allowed(c, alphanumeric) && isLower(c) {
      assert ' ' <= c <= '~';
    }
  }

  lemma ContainsItself(p: string)
    ensures Contains(p, p)
  {
    assert p[0..] == p && StartsWith(p[0..], p);
  }

  /** Which listed patterns never come out: for a listed pattern no output ever contains it if and
      only if it has a disallowed character. Those are eleven; the other sixteen can come out, since
      the filter runs after the only pass that deletes them. */
  lemma {:induction false} NeverComesOutIff(p: string, lower: string -> string, isLower: char -> bool,
                                            alphanumeric: char -> bool)
    requires Tables(lower, isLower, alphanumeric) && p in PATTERNS
    ensures (forall input :: !Contains(Sanitized(input, lower, alphanumeric), p)) <==>
              exists c :: c in p && !Allowed(c, alphanumeric)
    ensures (exists c :: c in p && !Allowed(c, alphanumeric)) <==> p in NEVER
    ensures p in NEVER <==> p !in MAY
  {
    Partition(p);
    if p in NEVER {
      NeverHasDisallowed(p, isLower, alphanumeric);
      forall input ensures !Contains(Sanitized(input, lower, alphanumeric), p) {
        ListedPatternsNeverSurvive(input, lower, alphanumeric, p);
      }
    }
    if p in MAY {
      MayHasNone(p, isLower, alphanumeric);
      MarkedComesOut(p, lower, isLower, alphanumeric);
      ContainsItself(p);
      assert Contains(Sanitized(Marked(p), lower, alphanumeric), p);
    }
  }

  // Sanitising twice is not the same as once for any of those sixteen.
  lemma NotIdempotent(p: string, lower: string -> string, isLower: char -> bool, alphanumeric: char -> bool)
    requires Tables(lower, isLower, alphanumeric) && p in PATTERNS && p in MAY
    ensures Sanitized(Marked(p), lower, alphanumeric) == p && Sanitized(p, lower, alphanumeric) != p
  {
    MayHasNone(p, isLower, alphanumeric);
    MarkedComesOut(p, lower, isLower, alphanumeric);
    ContainsItself(p);
    UnchangedIff(p, lower, isLower, alphanumeric);
  }

  // One input for which a listed pattern comes out.
  lemma DataComesOut(lower: string -> string, isLower: char -> bool, alphanumeric: char -> bool)
    requires Tables(lower, isLower, alphanumeric)
    ensures Sanitized("d!a!t!a!:!", lower, alphanumeric) == "data:"
    ensures Sanitized("data:", lower, alphanumeric) != "data:"
  {
    var p := "data:";
    assert SCRIPT_PATTERNS[2] == p && PATTERNS[|PATTERNS| - 4] == p && MAY[14] == p;
    NotIdempotent(p, lower, isLower, alphanumeric);
    assert p[1..] == "ata:" && "ata:"[1..] == "ta:" && "ta:"[1..] == "a:" && "a:"[1..] == ":" && ":"[1..] == "";
    assert Marked("") == "" && Marked(":") == ":!" && Marked("a:") == "a!:!";
    assert Marked("ta:") == "t!a!:!" && Marked("ata:") == "a!t!a!:!" && Marked(p) == "d!a!t!a!:!";
  }
}
