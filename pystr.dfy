/** The parts of Python's `str` and `re` behaviour that the fetcher relies on:
    splitting on a fixed separator or on a horizontal-rule regular expression, joining,
    `replace`, `strip`, slicing from an index, ASCII `lower`, and decimal `str`/`int`. */
module PyStr {
  import opened Wrappers

  type NonEmptyString = s: string | |s| > 0 witness " "

  /** What a split cuts on: a fixed separator (`str.split(sep)`), or the regular expression
      `[-][-]+\r\n` (two or more dashes ending a CRLF line). */
  datatype Pattern = Literal(sep: NonEmptyString) | HorizontalRule

  /** Length of the match of `[-][-]+\r\n` at the start of s, given that s[..k] are dashes
      already consumed; 0 when there is none. The greedy `-+` takes the whole dash run;
      backing off would leave a '-' where CR is needed, so the run must end in CRLF. */
  function RuleFrom(s: string, k: nat): (n: nat)
    requires k <= |s|
    ensures n <= |s|
    decreases |s| - k
  {
    if k < |s| && s[k] == '-' then RuleFrom(s, k + 1)
    else if k >= 2 && k + 2 <= |s| && s[k] == '\r' && s[k + 1] == '\n' then k + 2
    else 0
  }

  /** `s.startswith(prefix)`, compared character by character. */
  function StartsWith(s: string, prefix: string): (b: bool)
    ensures b ==> |prefix| <= |s|
  {
    prefix == [] || (s != [] && s[0] == prefix[0] && StartsWith(s[1..], prefix[1..]))
  }

  lemma {:induction false} StartsWithPrefix(s: string, prefix: string)
    ensures StartsWith(s, prefix) <==> prefix <= s
  {
    if prefix != [] && s != [] {
      StartsWithPrefix(s[1..], prefix[1..]);
    }
  }

  /** A literal separator matches exactly where it is a prefix. */
  lemma LiteralMatch(sep: NonEmptyString, s: string)
    ensures MatchLength(Literal(sep), s) == if sep <= s then |sep| else 0
  {
    StartsWithPrefix(s, sep);
  }

  /** Length of the match of p anchored at the start of s, 0 when p does not match there. */
  function MatchLength(p: Pattern, s: string): (n: nat)
    ensures n <= |s|
  {
    match p
    case Literal(sep) => if StartsWith(s, sep) then |sep| else 0
    case HorizontalRule => RuleFrom(s, 0)
  }

  /** A rule match is two or more dashes followed by CRLF ... */
  lemma {:induction false} RuleShape(s: string, k: nat)
    requires k <= |s| && RuleFrom(s, k) > 0
    ensures RuleFrom(s, k) >= 4 && s[RuleFrom(s, k) - 2] == '\r' && s[RuleFrom(s, k) - 1] == '\n'
    ensures forall i :: k <= i < RuleFrom(s, k) - 2 ==> s[i] == '-'
    decreases |s| - k
  {
    if s[k] == '-' {
      RuleShape(s, k + 1);
    }
  }

  /** ... and every run of two or more dashes followed by CRLF is matched, whole. */
  lemma {:induction false} RuleMatchesRun(s: string, k: nat, d: nat)
    requires k <= d && 2 <= d && d + 2 <= |s| && s[d] == '\r' && s[d + 1] == '\n'
    requires forall i :: k <= i < d ==> s[i] == '-'
    ensures RuleFrom(s, k) == d + 2
    decreases d - k
  {
    if k < d {
      RuleMatchesRun(s, k + 1, d);
    }
  }

  /** s contains no match of p anywhere. */
  ghost predicate Free(p: Pattern, s: string) {
    forall j :: 0 <= j < |s| ==> MatchLength(p, s[j..]) == 0
  }

  lemma {:induction false} RuleExtends(t: string, u: string, k: nat)
    requires t <= u && k <= |t| && RuleFrom(t, k) > 0
    ensures RuleFrom(u, k) == RuleFrom(t, k)
    decreases |t| - k
  {
    if t[k] == '-' {
      RuleExtends(t, u, k + 1);
    }
  }

  /** A match found in a prefix is the same match in the longer string: matching only
      looks forward and never past its own end. */
  lemma MatchExtends(p: Pattern, t: string, u: string)
    requires t <= u && MatchLength(p, t) > 0
    ensures MatchLength(p, u) == MatchLength(p, t)
  {
    if p.HorizontalRule? {
      RuleExtends(t, u, 0);
    } else {
      LiteralMatch(p.sep, t);
      LiteralMatch(p.sep, u);
    }
  }

  /** Leftmost position at or after i where p matches (Python's scanning search). */
  function FindFrom(p: Pattern, s: string, i: nat): (r: Option<nat>)
    requires i <= |s|
    ensures r.Some? ==> i <= r.value < |s| && MatchLength(p, s[r.value..]) > 0
    decreases |s| - i
  {
    if i == |s| then None
    else if MatchLength(p, s[i..]) > 0 then Some(i)
    else FindFrom(p, s, i + 1)
  }

  /** FindFrom finds the leftmost match: there is none between i and the position it
      returns, nor anywhere after i when it returns None. */
  lemma {:induction false} FindFromLeftmost(p: Pattern, s: string, i: nat)
    requires i <= |s|
    ensures var r := FindFrom(p, s, i);
      forall j :: i <= j < |s| && (r.None? || j < r.value) ==> MatchLength(p, s[j..]) == 0
    decreases |s| - i
  {
    if i < |s| && MatchLength(p, s[i..]) == 0 {
      FindFromLeftmost(p, s, i + 1);
    }
  }

  /** `s.split(sep)` for a literal, `re.split(...)` for the rule: the text between
      leftmost, non-overlapping matches, scanning left to right. */
  function Split(p: Pattern, s: string): (pieces: seq<string>)
    ensures |pieces| >= 1
    decreases |s|
  {
    match FindFrom(p, s, 0)
    case None => [s]
    case Some(i) => [s[..i]] + Split(p, s[i + MatchLength(p, s[i..])..])
  }

  /** The matched separators that Split cut out, in order. */
  function Delimiters(p: Pattern, s: string): seq<string>
    decreases |s|
  {
    match FindFrom(p, s, 0)
    case None => []
    case Some(i) =>
      var n := MatchLength(p, s[i..]);
      [s[i..][..n]] + Delimiters(p, s[i + n..])
  }

  /** pieces[0] + delims[0] + pieces[1] + ... + pieces[last]. */
  function Weave(pieces: seq<string>, delims: seq<string>): string
    requires |pieces| == |delims| + 1
  {
    if delims == [] then pieces[0]
    else pieces[0] + delims[0] + Weave(pieces[1..], delims[1..])
  }

  /** `sep.join(parts)`. */
  function Join(parts: seq<string>, sep: string): string {
    if parts == [] then ""
    else if |parts| == 1 then parts[0]
    else parts[0] + sep + Join(parts[1..], sep)
  }

  /** `s.replace(target, replacement)`: Python replaces leftmost non-overlapping occurrences, which is
      exactly joining the pieces of the split with the new text. */
  function Replace(s: string, target: NonEmptyString, replacement: string): (r: string)
    ensures Free(Literal(target), s) ==> r == s
  {
    SplitWholeIfFree(Literal(target), s);
    Join(Split(Literal(target), s), replacement)
  }

  /** Nothing is lost by a split: putting the separators back restores the input. */
  lemma {:induction false} SplitRestores(p: Pattern, s: string)
    ensures |Split(p, s)| == |Delimiters(p, s)| + 1
    ensures Weave(Split(p, s), Delimiters(p, s)) == s
    decreases |s|
  {
    match FindFrom(p, s, 0)
    case None =>
      SplitNotFound(p, s);
    case Some(i) =>
      SplitFound(p, s, i);
      DelimitersFound(p, s, i);
      SplitRestores(p, s[i + MatchLength(p, s[i..])..]);
      WeaveCons(s[..i], s[i..][..MatchLength(p, s[i..])], Split(p, s[i + MatchLength(p, s[i..])..]),
        Delimiters(p, s[i + MatchLength(p, s[i..])..]));
      Reassemble(s, i, s[i..][..MatchLength(p, s[i..])]);
  }

  /** Weaving one more piece and separator in front. */
  lemma WeaveCons(a: string, d: string, ps: seq<string>, ds: seq<string>)
    requires |ps| == |ds| + 1
    ensures Weave([a] + ps, [d] + ds) == a + d + Weave(ps, ds)
  {
    assert ([a] + ps)[1..] == ps;
    assert ([d] + ds)[1..] == ds;
  }

  /** For a literal separator, `sep.join(s.split(sep)) == s`. */
  lemma {:induction false} SplitJoin(sep: NonEmptyString, s: string)
    ensures Join(Split(Literal(sep), s), sep) == s
    decreases |s|
  {
    match FindFrom(Literal(sep), s, 0)
    case None =>
      SplitNotFound(Literal(sep), s);
    case Some(i) =>
      SplitFound(Literal(sep), s, i);
      LiteralMatch(sep, s[i..]);
      SplitJoin(sep, s[i + |sep|..]);
      JoinCons(s[..i], sep, Split(Literal(sep), s[i + |sep|..]));
      Reassemble(s, i, sep);
  }

  /** Joining one more part in front. */
  lemma JoinCons(a: string, sep: string, ps: seq<string>)
    requires |ps| >= 1
    ensures Join([a] + ps, sep) == a + sep + Join(ps, sep)
  {
    assert ([a] + ps)[1..] == ps;
  }

  /** A string is the text before position i, the separator found there, and the rest. */
  lemma Reassemble(s: string, i: nat, sep: string)
    requires i <= |s| && sep <= s[i..]
    ensures s == s[..i] + sep + s[i + |sep|..]
  {
    assert s[i..] == sep + s[i + |sep|..];
  }

  /** One step of Split and of Delimiters when a match is found, and the last step when
      none is, stated once so that the lemmas below need not unfold them. */
  lemma SplitFound(p: Pattern, s: string, i: nat)
    requires FindFrom(p, s, 0) == Some(i)
    ensures Split(p, s) == [s[..i]] + Split(p, s[i + MatchLength(p, s[i..])..])
  {
  }

  lemma DelimitersFound(p: Pattern, s: string, i: nat)
    requires FindFrom(p, s, 0) == Some(i)
    ensures Delimiters(p, s) == [s[i..][..MatchLength(p, s[i..])]] + Delimiters(p, s[i + MatchLength(p, s[i..])..])
  {
  }

  lemma SplitNotFound(p: Pattern, s: string)
    requires FindFrom(p, s, 0) == None
    ensures Split(p, s) == [s] && Delimiters(p, s) == []
  {
  }

  /** Which pieces a split gives. Without a match the text is one piece (`SplitWholeIfFree`).
      Otherwise the first piece ends where the leftmost match starts, the whole of that match
      is dropped, and the rest of the text is split the same way. */
  lemma SplitLeftmost(p: Pattern, s: string)
    ensures |Split(p, s)| > 1 ==> LeftmostPieces(p, s)
  {
    var r := FindFrom(p, s, 0);
    if r.None? {
      SplitNotFound(p, s);
    } else {
      SplitLeftmostFound(p, s, r.value);
    }
  }

  /** The pieces of a split that found a match, as SplitLeftmost describes them. */
  ghost predicate LeftmostPieces(p: Pattern, s: string)
    requires |Split(p, s)| > 1
  {
    var i := |Split(p, s)[0]|;
    i < |s| && MatchLength(p, s[i..]) > 0 &&
    (forall j :: 0 <= j < i ==> MatchLength(p, s[j..]) == 0) &&
    Split(p, s)[0] == s[..i] &&
    Split(p, s)[1..] == Split(p, s[i + MatchLength(p, s[i..])..])
  }

  /** SplitLeftmost when a match is found, stated for the position FindFrom returns. */
  lemma SplitLeftmostFound(p: Pattern, s: string, i: nat)
    requires FindFrom(p, s, 0) == Some(i)
    ensures |Split(p, s)| > 1 && LeftmostPieces(p, s)
  {
    FindFromLeftmost(p, s, 0);
    SplitFound(p, s, i);
    var rest := Split(p, s[i + MatchLength(p, s[i..])..]);
    HeadTail(s[..i], rest);
  }

  lemma HeadTail(x: string, t: seq<string>)
    ensures ([x] + t)[0] == x && ([x] + t)[1..] == t
  {
  }

  /** No piece of a split contains a match of the pattern it was split on. */
  lemma {:induction false} SplitPieceFree(p: Pattern, s: string, k: nat)
    requires k < |Split(p, s)|
    ensures Free(p, Split(p, s)[k])
    decreases |s|
  {
    FindFromLeftmost(p, s, 0);
    match FindFrom(p, s, 0)
    case None =>
      SplitNotFound(p, s);
    case Some(i) =>
      SplitFound(p, s, i);
      if k == 0 {
        FirstPieceFree(p, s, i);
      } else {
        SplitPieceFree(p, s[i + MatchLength(p, s[i..])..], k - 1);
      }
  }

  /** The text before the leftmost match has no match of its own. */
  lemma FirstPieceFree(p: Pattern, s: string, i: nat)
    requires i <= |s| && forall j :: 0 <= j < i ==> MatchLength(p, s[j..]) == 0
    ensures Free(p, s[..i])
  {
    forall j | 0 <= j < i ensures MatchLength(p, s[..i][j..]) == 0 {
      if MatchLength(p, s[..i][j..]) > 0 {
        MatchExtends(p, s[..i][j..], s[j..]);
      }
    }
  }

  /** Every infix of a string with no match has no match. */
  lemma FreeInfix(p: Pattern, s: string, i: nat, j: nat)
    requires i <= j <= |s| && Free(p, s)
    ensures Free(p, s[i..j])
  {
    forall k | 0 <= k < j - i ensures MatchLength(p, s[i..j][k..]) == 0 {
      if MatchLength(p, s[i..j][k..]) > 0 {
        MatchExtends(p, s[i..j][k..], s[i + k..]);
      }
    }
  }

  lemma FreeSlice(p: Pattern, s: string, t: string, i: nat, j: nat)
    requires i <= j <= |s| && Free(p, s) && t == s[i..j]
    ensures Free(p, t)
  {
    FreeInfix(p, s, i, j);
  }

  /** A string that lacks one of the separator's characters cannot contain the separator. */
  lemma FreeWithoutChar(sep: NonEmptyString, s: string, c: char)
    requires c in sep && c !in s
    ensures Free(Literal(sep), s)
  {
    var k :| 0 <= k < |sep| && sep[k] == c;
    forall j | 0 <= j < |s| ensures MatchLength(Literal(sep), s[j..]) == 0 {
      LiteralMatch(sep, s[j..]);
      if j + k < |s| {
        assert s[j..][k] != sep[k];
      }
    }
  }

  /** The separator's first character occurs nowhere else in it, so two occurrences can
      never overlap (true of CRLF, CRLF + two backslashes, a space, a newline). */
  predicate FirstCharUnique(sep: NonEmptyString) {
    forall k :: 0 < k < |sep| ==> sep[k] != sep[0]
  }

  /** When no match starts before |a|, Split takes a as its first piece and continues after
      the separator. */
  lemma SplitFirst(sep: NonEmptyString, a: string, b: string)
    requires forall j :: 0 <= j < |a| ==> MatchLength(Literal(sep), (a + sep + b)[j..]) == 0
    ensures Split(Literal(sep), a + sep + b) == [a] + Split(Literal(sep), b)
  {
    LiteralMatch(sep, sep + b);
    SplitAfter(Literal(sep), a, sep, b);
  }

  /** When no match starts before |a| and d is matched whole at |a|, Split takes a as its
      first piece and continues after d. */
  lemma SplitAfter(p: Pattern, a: string, d: string, b: string)
    requires |d| > 0 && MatchLength(p, d + b) == |d|
    requires forall j :: 0 <= j < |a| ==> MatchLength(p, (a + d + b)[j..]) == 0
    ensures Split(p, a + d + b) == [a] + Split(p, b)
  {
    Slices3(a, d, b);
    FindFromLeftmost(p, a + d + b, 0);
    assert FindFrom(p, a + d + b, 0) == Some(|a|);
    SplitFound(p, a + d + b, |a|);
  }

  /** Slices of a three-part concatenation, kept apart from the Split terms of the lemmas
      that use it, where the solver would otherwise mix them with Split's unfoldings. */
  lemma Slices3(a: string, d: string, b: string)
    ensures (a + d + b)[..|a|] == a && (a + d + b)[|a|..] == d + b && (a + d + b)[|a| + |d|..] == b
  {
  }

  /** A whole rule line: two or more dashes, then CRLF. */
  predicate IsRuleLine(r: string) {
    |r| >= 4 && r[|r| - 2] == '\r' && r[|r| - 1] == '\n' && forall i :: 0 <= i < |r| - 2 ==> r[i] == '-'
  }

  /** A rule line is matched whole, whatever follows it. */
  lemma RuleLineMatches(r: string, b: string)
    requires IsRuleLine(r)
    ensures MatchLength(HorizontalRule, r + b) == |r|
  {
    var s := r + b;
    assert s[|r| - 2] == '\r' && s[|r| - 1] == '\n';
    RuleMatchesRun(s, 0, |r| - 2);
  }

  /** No rule match starts inside a rule-free piece that does not end in a dash, even when
      a rule line follows it. */
  lemma NoEarlyRule(a: string, r: string, b: string)
    requires Free(HorizontalRule, a) && (a == [] || a[|a| - 1] != '-')
    requires r != [] && r[0] == '-'
    ensures forall j :: 0 <= j < |a| ==> MatchLength(HorizontalRule, (a + r + b)[j..]) == 0
  {
    forall j | 0 <= j < |a| ensures MatchLength(HorizontalRule, (a + r + b)[j..]) == 0 {
      var t, u := (a + r + b)[j..], a[j..];
      assert forall i :: 0 <= i < |u| ==> t[i] == u[i];
      assert t[|u|] == r[0];
      var m := DashEnd(t, 0);
      RuleFromDashEnd(t, 0);
      DashEndDashes(t, 0);
      assert t[|u| - 1] == a[|a| - 1];
      assert m < |u|;
      if m + 2 <= |u| {
        DashEndUnique(u, 0, m);
        RuleFromDashEnd(u, 0);
      }
    }
  }

  /** First index at or after k that does not hold a dash. */
  function DashEnd(s: string, k: nat): (m: nat)
    requires k <= |s|
    ensures k <= m <= |s| && (m < |s| ==> s[m] != '-')
    decreases |s| - k
  {
    if k < |s| && s[k] == '-' then DashEnd(s, k + 1) else k
  }

  lemma {:induction false} DashEndDashes(s: string, k: nat)
    requires k <= |s|
    ensures forall i :: k <= i < DashEnd(s, k) ==> s[i] == '-'
    decreases |s| - k
  {
    if k < |s| && s[k] == '-' {
      DashEndDashes(s, k + 1);
    }
  }

  lemma {:induction false} DashEndUnique(s: string, k: nat, m: nat)
    requires k <= m <= |s| && (m < |s| ==> s[m] != '-')
    requires forall i :: k <= i < m ==> s[i] == '-'
    ensures DashEnd(s, k) == m
    decreases m - k
  {
    if k < m {
      DashEndUnique(s, k + 1, m);
    }
  }

  /** The rule matcher decides only at the end of the dash run: a CRLF there, after at
      least two dashes, completes a match. */
  lemma {:induction false} RuleFromDashEnd(s: string, k: nat)
    requires k <= |s|
    ensures var m := DashEnd(s, k);
      RuleFrom(s, k) == if m >= 2 && m + 2 <= |s| && s[m] == '\r' && s[m + 1] == '\n' then m + 2 else 0
    decreases |s| - k
  {
    if k < |s| && s[k] == '-' {
      RuleFromDashEnd(s, k + 1);
    }
  }

  /** Splitting on the rule undoes weaving rule lines between rule-free pieces, provided no
      piece but the last ends in a dash (a dash there would join the rule's own run). */
  lemma {:induction false} WeaveSplit(pieces: seq<string>, rules: seq<string>)
    requires |pieces| == |rules| + 1
    requires forall k :: 0 <= k < |rules| ==> IsRuleLine(rules[k])
    requires forall k :: 0 <= k < |pieces| ==> Free(HorizontalRule, pieces[k])
    requires forall k :: 0 <= k < |rules| ==> pieces[k] == [] || pieces[k][|pieces[k]| - 1] != '-'
    ensures Split(HorizontalRule, Weave(pieces, rules)) == pieces
    decreases |rules|
  {
    if rules == [] {
      SplitWhole(HorizontalRule, pieces[0]);
    } else {
      var rest := Weave(pieces[1..], rules[1..]);
      WeaveSplit(pieces[1..], rules[1..]);
      RuleLineMatches(rules[0], rest);
      NoEarlyRule(pieces[0], rules[0], rest);
      SplitAfter(HorizontalRule, pieces[0], rules[0], rest);
      assert pieces == [pieces[0]] + pieces[1..];
    }
  }

  /** A string with no match is its own only piece. */
  lemma SplitWhole(p: Pattern, s: string)
    requires Free(p, s)
    ensures Split(p, s) == [s]
  {
    match FindFrom(p, s, 0)
    case None =>
      SplitNotFound(p, s);
    case Some(i) =>
      assert false;
  }

  lemma SplitWholeIfFree(p: Pattern, s: string)
    ensures Free(p, s) ==> Split(p, s) == [s]
  {
    if Free(p, s) {
      SplitWhole(p, s);
    }
  }

  /** A separator with a unique first character, placed after a piece without it, starts
      the first match. */
  lemma NoEarlyMatch(sep: NonEmptyString, a: string, b: string)
    requires FirstCharUnique(sep) && Free(Literal(sep), a)
    ensures forall j :: 0 <= j < |a| ==> MatchLength(Literal(sep), (a + sep + b)[j..]) == 0
  {
    forall j | 0 <= j < |a| ensures MatchLength(Literal(sep), (a + sep + b)[j..]) == 0 {
      var s := a + sep + b;
      LiteralMatch(sep, s[j..]);
      if j + |sep| <= |a| {
        LiteralMatch(sep, a[j..]);
        assert s[j..][..|sep|] == a[j..][..|sep|];
      } else {
        var k := |a| - j;
        assert s[j..][k] == sep[0] != sep[k];
      }
    }
  }

  /** Splitting undoes joining when the separator cannot overlap itself and no part
      contains it. */
  lemma {:induction false} JoinSplit(sep: NonEmptyString, parts: seq<string>)
    requires FirstCharUnique(sep) && |parts| >= 1
    requires forall k :: 0 <= k < |parts| ==> Free(Literal(sep), parts[k])
    ensures Split(Literal(sep), Join(parts, sep)) == parts
  {
    if |parts| == 1 {
      SplitWhole(Literal(sep), parts[0]);
    } else {
      JoinSplit(sep, parts[1..]);
      NoEarlyMatch(sep, parts[0], Join(parts[1..], sep));
      SplitFirst(sep, parts[0], Join(parts[1..], sep));
    }
  }

  /** Joining match-free parts with a separator that shares no character with `t` creates
      no occurrence of `t`. */
  lemma {:induction false} JoinFree(t: NonEmptyString, parts: seq<string>, sep: NonEmptyString)
    requires forall k :: 0 <= k < |parts| ==> Free(Literal(t), parts[k])
    requires forall c :: c in sep ==> c !in t
    ensures Free(Literal(t), Join(parts, sep))
  {
    if |parts| > 1 {
      JoinFree(t, parts[1..], sep);
      var a, rest := parts[0], Join(parts[1..], sep);
      var s := a + sep + rest;
      assert Join(parts, sep) == s;
      forall j | 0 <= j < |s| ensures MatchLength(Literal(t), s[j..]) == 0 {
        LiteralMatch(t, s[j..]);
        if j >= |a| + |sep| {
          assert s[j..] == rest[j - |a| - |sep|..];
        } else if j >= |a| {
          assert sep[j - |a|] in sep && t[0] in t;
          assert s[j..][0] == sep[j - |a|] != t[0];
        } else if j + |t| <= |a| {
          LiteralMatch(t, a[j..]);
          assert s[j..][..|t|] == a[j..][..|t|];
        } else {
          assert sep[0] in sep && t[|a| - j] in t;
          assert s[j..][|a| - j] == sep[0] != t[|a| - j];
        }
      }
    }
  }

  /** Number of pieces when splitting on a one-character separator: one more than the
      number of times that character occurs. */
  lemma {:induction false} SplitCountChar(c: char, s: string)
    ensures |Split(Literal([c]), s)| == multiset(s)[c] + 1
    decreases |s|
  {
    FindFromLeftmost(Literal([c]), s, 0);
    match FindFrom(Literal([c]), s, 0)
    case None =>
      SplitNotFound(Literal([c]), s);
      CharAbsent(c, s, |s|);
    case Some(i) =>
      SplitFound(Literal([c]), s, i);
      CharAbsent(c, s, i);
      LiteralMatch([c], s[i..]);
      SplitCountChar(c, s[i + 1..]);
      CountBack(c, s, i);
  }

  /** The occurrences of c in s, when the first one is at i. */
  lemma CountBack(c: char, s: string, i: nat)
    requires i < |s| && [c] <= s[i..] && multiset(s[..i])[c] == 0
    ensures multiset(s)[c] == multiset(s[i + 1..])[c] + 1
  {
    assert s == s[..i] + [c] + s[i + 1..];
    assert multiset(s) == multiset(s[..i]) + multiset([c]) + multiset(s[i + 1..]);
  }

  /** No match of a one-character separator before i means the character is absent there. */
  lemma CharAbsent(c: char, s: string, i: nat)
    requires i <= |s| && forall j :: 0 <= j < i ==> MatchLength(Literal([c]), s[j..]) == 0
    ensures multiset(s[..i])[c] == 0
    ensures i == |s| ==> multiset(s)[c] == 0
  {
    assert s[..|s|] == s;
    forall j | 0 <= j < i ensures s[..i][j] != c {
      LiteralMatch([c], s[j..]);
    }
  }

  /** Splitting on a one-character separator distributes over an occurrence of it. */
  lemma {:induction false} SplitAppendChar(c: char, a: string, b: string)
    ensures Split(Literal([c]), a + [c] + b) == Split(Literal([c]), a) + Split(Literal([c]), b)
    decreases |a|
  {
    match FindFrom(Literal([c]), a, 0)
    case None =>
      FindFromLeftmost(Literal([c]), a, 0);
      SplitNotFound(Literal([c]), a);
      SplitAppendCharLast(c, a, b);
    case Some(i) =>
      SplitCharFound(c, a, i);
      SplitAppendCharFound(c, a, i, b);
      SplitAppendChar(c, a[i + 1..], b);
      ConsAppend(a[..i], Split(Literal([c]), a[i + 1..]), Split(Literal([c]), b));
  }

  lemma SplitCharFound(c: char, a: string, i: nat)
    requires FindFrom(Literal([c]), a, 0) == Some(i)
    ensures i < |a|
    ensures Split(Literal([c]), a) == [a[..i]] + Split(Literal([c]), a[i + 1..])
  {
    CharMatchOne(c, a[i..]);
    SplitFoundLength(Literal([c]), a, i, 1);
  }

  lemma CharMatchOne(c: char, t: string)
    requires MatchLength(Literal([c]), t) > 0
    ensures MatchLength(Literal([c]), t) == 1
  {
    LiteralMatch([c], t);
  }

  lemma SplitFoundLength(p: Pattern, s: string, i: nat, n: nat)
    requires FindFrom(p, s, 0) == Some(i) && MatchLength(p, s[i..]) == n
    ensures i + n <= |s| && Split(p, s) == [s[..i]] + Split(p, s[i + n..])
  {
    SplitFound(p, s, i);
  }

  lemma SplitAppendCharFound(c: char, a: string, i: nat, b: string)
    requires FindFrom(Literal([c]), a, 0) == Some(i)
    ensures Split(Literal([c]), a + [c] + b) == [a[..i]] + Split(Literal([c]), a[i + 1..] + [c] + b)
  {
    SplitCharFound(c, a, i);
    LiteralMatch([c], a[i..]);
    FindFromLeftmost(Literal([c]), a, 0);
    FirstPieceFree(Literal([c]), a, i);
    SplitAppendCharStep(c, a, i, b);
  }

  /** Regrouping a list of pieces, kept apart from the Split terms of the lemmas that use it. */
  lemma ConsAppend(x: string, ps: seq<string>, qs: seq<string>)
    ensures [x] + (ps + qs) == [x] + ps + qs
  {
  }

  lemma SplitAppendCharLast(c: char, a: string, b: string)
    requires Free(Literal([c]), a)
    ensures Split(Literal([c]), a + [c] + b) == [a] + Split(Literal([c]), b)
  {
    NoEarlyMatch([c], a, b);
    SplitFirst([c], a, b);
  }

  lemma SplitAppendCharStep(c: char, a: string, i: nat, b: string)
    requires i < |a| && [c] <= a[i..] && Free(Literal([c]), a[..i])
    ensures Split(Literal([c]), a + [c] + b) == [a[..i]] + Split(Literal([c]), a[i + 1..] + [c] + b)
  {
    Regroup(a, i, c, b);
    NoEarlyMatch([c], a[..i], a[i + 1..] + [c] + b);
    SplitFirst([c], a[..i], a[i + 1..] + [c] + b);
  }

  lemma Regroup(a: string, i: nat, c: char, b: string)
    requires i < |a| && [c] <= a[i..]
    ensures a + [c] + b == a[..i] + [c] + (a[i + 1..] + [c] + b)
  {
    assert a == a[..i] + [c] + a[i + 1..];
  }

  /** A string with no match of a one-character separator lacks that character. */
  lemma FreeCharAbsent(c: char, s: string)
    requires Free(Literal([c]), s)
    ensures c !in s
  {
    forall j | 0 <= j < |s| ensures s[j] != c {
      LiteralMatch([c], s[j..]);
    }
  }

  /** What a file opened in text mode reads as: universal newlines turn CR LF, and a CR
      on its own, into LF. */
  function Universal(s: string): (r: string)
    ensures |r| <= |s| && '\r' !in r
    ensures '\r' !in s ==> r == s
  {
    if s == [] then []
    else
      var init := s[..|s| - 1];
      assert s == init + [s[|s| - 1]];
      Universal(init) + Translated(s, |s| - 1)
  }

  /** What character i of a file becomes when read: LF for a CR, nothing for the LF of a
      CR LF pair, itself otherwise. */
  function Translated(s: string, i: nat): (r: string)
    requires i < |s|
    ensures |r| <= 1 && '\r' !in r
    ensures s[i] != '\r' && s[i] != '\n' ==> r == [s[i]]
  {
    if s[i] == '\r' then "\n"
    else if s[i] == '\n' && i > 0 && s[i - 1] == '\r' then ""
    else [s[i]]
  }

  /** Reading one more character. */
  lemma UniversalSnoc(x: string, c: char)
    ensures Universal(x + [c]) == Universal(x) + Translated(x + [c], |x|)
  {
    assert (x + [c])[..|x|] == x;
  }

  /** Text without line ends is read as written, after anything. */
  lemma {:induction false} UniversalAppend(x: string, d: string)
    requires '\r' !in d && '\n' !in d
    ensures Universal(x + d) == Universal(x) + d
    decreases |d|
  {
    if d == [] {
      assert x + d == x;
    } else {
      var init, last := d[..|d| - 1], d[|d| - 1];
      SnocAssoc(x, d);
      SnocAssoc(Universal(x), d);
      assert last in d;
      UniversalAppend(x, init);
      UniversalSnoc(x + init, last);
    }
  }

  /** Regrouping a string around its last character, kept apart from the Universal terms of
      `UniversalAppend`. */
  lemma SnocAssoc(a: string, d: string)
    requires d != []
    ensures a + d == (a + d[..|d| - 1]) + [d[|d| - 1]]
  {
  }

  /** An LF is read as a line end, unless it completes a CR LF whose CR already was one. */
  lemma UniversalNewline(x: string)
    ensures x != [] && x[|x| - 1] == '\r' ==> Universal(x + "\n") == Universal(x)
    ensures (x == [] || x[|x| - 1] != '\r') ==> Universal(x + "\n") == Universal(x) + "\n"
  {
    UniversalSnoc(x, '\n');
  }

  /** CR LF is read as one LF. */
  lemma UniversalCRLF(x: string)
    ensures Universal(x + "\r\n") == Universal(x) + "\n"
  {
    UniversalSnoc(x, '\r');
    assert x + "\r\n" == (x + "\r") + "\n";
    UniversalNewline(x + "\r");
  }

  /** A text ending in CR is read as ending in LF. */
  lemma UniversalTrailingCR(x: string)
    requires x != [] && x[|x| - 1] == '\r'
    ensures Universal(x) == Universal(x[..|x| - 1]) + "\n"
  {
  }

  /** `s[n:]`: Python slicing past the end gives the empty string. */
  function Drop(s: string, n: nat): (r: string)
    ensures |r| == if n <= |s| then |s| - n else 0
    ensures forall i :: 0 <= i < |r| ==> r[i] == s[n + i]
  {
    if n <= |s| then s[n..] else ""
  }

  /** CPython's `str.isspace`: the characters `strip()` removes. */
  predicate IsSpace(c: char) {
    ('\t' <= c <= '\r') || ('\U{1C}' <= c <= '\U{1F}') || c == ' ' || c == '\U{85}' ||
    c == '\U{A0}' || c == '\U{1680}' || ('\U{2000}' <= c <= '\U{200A}') ||
    c == '\U{2028}' || c == '\U{2029}' || c == '\U{202F}' || c == '\U{205F}' || c == '\U{3000}'
  }

  /** Index of the first non-whitespace character at or after k, |s| if there is none. */
  function SkipSpaces(s: string, k: nat): (r: nat)
    requires k <= |s|
    ensures k <= r <= |s| && (r < |s| ==> !IsSpace(s[r]))
    decreases |s| - k
  {
    if k < |s| && IsSpace(s[k]) then SkipSpaces(s, k + 1) else k
  }

  lemma {:induction false} SkipSpacesSkipsSpaces(s: string, k: nat)
    requires k <= |s|
    ensures forall m :: k <= m < SkipSpaces(s, k) ==> IsSpace(s[m])
    decreases |s| - k
  {
    if k < |s| && IsSpace(s[k]) {
      SkipSpacesSkipsSpaces(s, k + 1);
    }
  }

  /** Index just after the last non-whitespace character before k, 0 if there is none. */
  function SkipSpacesBack(s: string, k: nat): (r: nat)
    requires k <= |s|
    ensures r <= k && (r > 0 ==> !IsSpace(s[r - 1]))
  {
    if k > 0 && IsSpace(s[k - 1]) then SkipSpacesBack(s, k - 1) else k
  }

  lemma {:induction false} SkipSpacesBackSkipsSpaces(s: string, k: nat)
    requires k <= |s|
    ensures forall m :: SkipSpacesBack(s, k) <= m < k ==> IsSpace(s[m])
  {
    if k > 0 && IsSpace(s[k - 1]) {
      SkipSpacesBackSkipsSpaces(s, k - 1);
    }
  }

  /** `s.lstrip()`. */
  function TrimStart(s: string): string {
    s[SkipSpaces(s, 0)..]
  }

  /** `s.rstrip()`. */
  function TrimEnd(s: string): string {
    s[..SkipSpacesBack(s, |s|)]
  }

  /** `s.strip()`: no whitespace is left at either end. */
  function Strip(s: string): (r: string)
    ensures r == [] || (!IsSpace(r[0]) && !IsSpace(r[|r| - 1]))
  {
    TrimEnd(TrimStart(s))
  }

  /** What `strip()` promises besides its ends: it removes only whitespace, and only from
      the two ends. */
  lemma StripSpec(s: string)
    ensures var i := SkipSpaces(s, 0);
      var r := Strip(s);
      i + |r| <= |s| && r == s[i..i + |r|] &&
      (forall k :: 0 <= k < i ==> IsSpace(s[k])) &&
      (forall k :: i + |r| <= k < |s| ==> IsSpace(s[k]))
  {
    SkipSpacesSkipsSpaces(s, 0);
    SkipSpacesBackSkipsSpaces(TrimStart(s), |TrimStart(s)|);
    StripRest(s, SkipSpaces(s, 0), SkipSpacesBack(TrimStart(s), |TrimStart(s)|));
  }

  /** What `strip()` keeps is one slice of the string. */
  lemma StripIsSlice(s: string)
    ensures SkipSpaces(s, 0) + |Strip(s)| <= |s|
    ensures Strip(s) == s[SkipSpaces(s, 0)..SkipSpaces(s, 0) + |Strip(s)|]
  {
    StripSpec(s);
  }

  lemma StripRest(s: string, i: nat, j: nat)
    requires i <= |s| && j <= |s| - i
    requires forall m :: j <= m < |s| - i ==> IsSpace(s[i..][m])
    ensures s[i..][..j] == s[i..i + j]
    ensures forall k :: i + j <= k < |s| ==> IsSpace(s[k])
  {
    forall k | i + j <= k < |s| ensures IsSpace(s[k]) {
      assert s[k] == s[i..][k - i];
    }
  }

  /** A string with no leading or trailing whitespace is left alone by `strip()`. */
  lemma StripNoop(s: string)
    requires s == [] || (!IsSpace(s[0]) && !IsSpace(s[|s| - 1]))
    ensures Strip(s) == s
  {
    assert s[0..] == s && s[..|s|] == s;
  }

  /** `str.lower` on ASCII letters. */
  function LowerChar(c: char): char {
    if 'A' <= c <= 'Z' then (c as int + 32) as char else c
  }

  function Lower(s: string): (r: string)
    ensures |r| == |s| && forall i :: 0 <= i < |s| ==> r[i] == LowerChar(s[i])
  {
    seq(|s|, i requires 0 <= i < |s| => LowerChar(s[i]))
  }

  predicate IsDigit(c: char) {
    '0' <= c <= '9'
  }

  /** Value of a run of decimal digits, most significant first. */
  function DigitValue(c: char): nat
    requires IsDigit(c)
  {
    c as int - '0' as int
  }

  function DigitsValue(s: string): nat
    requires AllDigits(s)
  {
    if s == [] then 0
    else 10 * DigitsValue(s[..|s| - 1]) + DigitValue(s[|s| - 1])
  }

  /** `str(n)` for a non-negative integer. */
  function DecimalString(n: nat): (r: string)
    ensures |r| >= 1 && AllDigits(r)
  {
    var d := ['0' + (n % 10) as char];
    if n < 10 then d else DecimalString(n / 10) + d
  }

  /** `int(line)`: surrounding whitespace, an optional sign, then one or more decimal
      digits; anything else is a ValueError, here None. */
  function ParseInt(line: string): (r: Option<int>)
    ensures r.Some? <==> IsIntLiteral(Strip(line))
    ensures r.Some? && AllDigits(Strip(line)) ==> r.value == DigitsValue(Strip(line))
  {
    ParseSigned(Strip(line))
  }

  /** What `int()` accepts once stripped: one or more digits, with an optional sign. */
  predicate IsIntLiteral(t: string) {
    (t != [] && AllDigits(t)) || (|t| >= 2 && (t[0] == '+' || t[0] == '-') && AllDigits(t[1..]))
  }

  predicate AllDigits(s: string) {
    forall i :: 0 <= i < |s| ==> IsDigit(s[i])
  }

  /** The part of `int()` after stripping: an optional sign, then the digits. */
  function ParseSigned(t: string): Option<int> {
    var negative := t != [] && t[0] == '-';
    var digits := if t != [] && (t[0] == '-' || t[0] == '+') then t[1..] else t;
    if digits != [] && AllDigits(digits) then
      var v: int := DigitsValue(digits);
      Some(if negative then -v else v)
    else None
  }

  /** A run of digits has no surrounding whitespace. */
  lemma StripDigits(s: string)
    requires AllDigits(s)
    ensures Strip(s) == s
  {
    if s != [] {
      assert IsDigit(s[0]) && IsDigit(s[|s| - 1]);
    }
    StripNoop(s);
  }

  /** An unsigned run of digits parses to its value. */
  lemma UnsignedDigits(s: string)
    requires s != [] && AllDigits(s)
    ensures ParseSigned(s) == Some(DigitsValue(s))
  {
    assert IsDigit(s[0]);
  }

  /** Digits hold no line end. */
  lemma DigitsNoLineEnd(d: string)
    requires AllDigits(d)
    ensures '\r' !in d && '\n' !in d
  {
    forall i | 0 <= i < |d| ensures d[i] != '\r' && d[i] != '\n' {
      assert IsDigit(d[i]);
    }
  }

  /** `int()` of an unsigned run of digits is the value of the digits. */
  lemma ParseDigits(s: string)
    requires s != [] && AllDigits(s)
    ensures ParseInt(s) == Some(DigitsValue(s))
  {
    StripDigits(s);
    UnsignedDigits(s);
  }

  lemma {:induction false} DigitsValueOfDecimal(n: nat)
    ensures DigitsValue(DecimalString(n)) == n
  {
    if n >= 10 {
      DigitsValueOfDecimal(n / 10);
      var s := DecimalString(n);
      assert s[..|s| - 1] == DecimalString(n / 10);
    }
  }

  /** `int(str(n)) == n`. */
  lemma ParseDecimal(n: nat)
    ensures ParseInt(DecimalString(n)) == Some(n)
  {
    DigitsValueOfDecimal(n);
    ParseDigits(DecimalString(n));
  }
}
