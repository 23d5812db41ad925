/**
 * The text handling of `updateSlackUserName` in modules/slack.js: the
 * mentions `<@ID>` that `topic.match(/<@[A-Z0-9]+>/g)` finds in a channel
 * topic, and `topic.replace(token, replacement)`, which rewrites the first
 * textual occurrence of the token.
 *
 * The matcher is modelled as a left-to-right scan over positions of the
 * text: at each position it either matches a whole mention and continues
 * after it, or moves on by one character.
 */
module MentionScan {

  /** A character of a Slack id as the pattern accepts it: `[A-Z0-9]`. */
  predicate IsIdChar(c: char)
  {
    'A' <= c <= 'Z' || '0' <= c <= '9'
  }

  /** The length of the longest run of id characters of `s` starting at `i`. */
  function IdRun(s: string, i: nat): (n: nat)
    requires i <= |s|
    ensures i + n <= |s|
    decreases |s| - i
  {
    if i < |s| && IsIdChar(s[i]) then 1 + IdRun(s, i + 1) else 0
  }

  /**
   * The length of the match of `<@[A-Z0-9]+>` at position `i`, or 0 when
   * there is none. The id run is greedy, and no shorter run could be
   * followed by `>`, so the match is the maximal run closed by `>`.
   */
  function MatchAt(s: string, i: nat): (n: nat)
    requires i <= |s|
    ensures n == 0 || (4 <= n && i + n <= |s|)
  {
    if i + 2 <= |s| && s[i] == '<' && s[i + 1] == '@' then
      var run := IdRun(s, i + 2);
      if run > 0 && i + 2 + run < |s| && s[i + 2 + run] == '>' then run + 3 else 0
    else 0
  }

  /** What the scan takes at position `i`: the match there, or nothing. */
  function TokenAt(s: string, i: nat): seq<string>
    requires i <= |s|
  {
    var n := MatchAt(s, i);
    if n > 0 then [s[i..i + n]] else []
  }

  /** Where the scan goes on from position `i`: past the match, or one character on. */
  function NextAt(s: string, i: nat): (j: nat)
    requires i < |s|
    ensures i < j <= |s|
  {
    var n := MatchAt(s, i);
    if n > 0 then i + n else i + 1
  }

  /** The matches of the scan from position `i` to the end of the text. */
  function MentionsFrom(s: string, i: nat): seq<string>
    requires i <= |s|
    decreases |s| - i
  {
    if i == |s| then [] else TokenAt(s, i) + MentionsFrom(s, NextAt(s, i))
  }

  /** `topic.match(/<@[A-Z0-9]+>/g)`: the non-overlapping matches, left to right. */
  function Mentions(s: string): seq<string>
  {
    MentionsFrom(s, 0)
  }

  /** The matches of the scan from position `i` that start before position `p`. */
  function MentionsBefore(s: string, i: nat, p: nat): seq<string>
    requires i <= |s|
    decreases |s| - i
  {
    if i >= p || i == |s| then [] else TokenAt(s, i) + MentionsBefore(s, NextAt(s, i), p)
  }

  /** The matches that start before position `p`. */
  function MentionsUpTo(s: string, p: nat): seq<string>
  {
    MentionsBefore(s, 0, p)
  }

  /** The matches of the scan from position `i` on. */
  function MentionsAfter(s: string, i: nat): seq<string>
    requires i <= |s|
  {
    MentionsFrom(s, i)
  }

  /** A whole mention token: `<@`, one or more id characters, `>`. */
  predicate IsMention(t: string)
  {
    |t| >= 4 && t[0] == '<' && t[1] == '@' && t[|t| - 1] == '>' &&
    forall k :: 2 <= k < |t| - 1 ==> IsIdChar(t[k])
  }

  /** `<@id>`: the mention of a Slack user id. */
  function MentionOf(id: string): string
  {
    "<@" + id + ">"
  }

  /** `pat` occurs in `s` at position `q`. */
  predicate OccursAt(s: string, pat: string, q: nat)
  {
    q + |pat| <= |s| && forall j {:trigger pat[j]} :: 0 <= j < |pat| ==> s[q + j] == pat[j]
  }

  /** `s.indexOf(pat, from)`: the first position at or after `from` where `pat` occurs, or -1. */
  function IndexFrom(s: string, pat: string, from: nat): (r: int)
    requires from <= |s|
    ensures r == -1 || (from <= r && OccursAt(s, pat, r))
    decreases |s| - from
  {
    if from + |pat| > |s| then -1
    else if OccursAt(s, pat, from) then from
    else IndexFrom(s, pat, from + 1)
  }

  /** `s.indexOf(pat)`: the first position where `pat` occurs, or -1. */
  function IndexOf(s: string, pat: string): (r: int)
    ensures r == -1 || (0 <= r && OccursAt(s, pat, r))
  {
    IndexFrom(s, pat, 0)
  }

  /** `s` with `r` in place of the `m` characters at position `p`. */
  function Splice(s: string, p: nat, m: nat, r: string): string
    requires p + m <= |s|
  {
    s[..p] + (r + s[p + m..])
  }

  /** `s.replace(pat, rep)` with a string pattern: only the first occurrence is rewritten. */
  function ReplaceFirst(s: string, pat: string, rep: string): string
  {
    var p := IndexOf(s, pat);
    if p == -1 then s else Splice(s, p, |pat|, rep)
  }

  /** The position of the first `x` in `xs` at or after `i`. */
  function FirstIndexFrom<T(==)>(xs: seq<T>, x: T, i: nat): (j: nat)
    requires exists k :: i <= k < |xs| && xs[k] == x
    ensures i <= j < |xs| && xs[j] == x
    ensures forall k :: i <= k < j ==> xs[k] != x
    decreases |xs| - i
  {
    if xs[i] == x then i else FirstIndexFrom(xs, x, i + 1)
  }

  /** The position of the first `x` in `xs`. */
  function FirstIndex<T(==)>(xs: seq<T>, x: T): (j: nat)
    requires x in xs
    ensures j < |xs| && xs[j] == x
    ensures forall k :: 0 <= k < j ==> xs[k] != x
  {
    FirstIndexFrom(xs, x, 0)
  }

  /* --------------------------- sequence facts --------------------------- */

  // Stated generically so that each is proved apart from the matching functions.

  lemma AppendAssoc<T>(x: seq<T>, y: seq<T>, z: seq<T>)
    ensures x + (y + z) == x + y + z
  {
  }

  lemma UpdateMiddle<T>(before: seq<T>, x: T, y: T, after: seq<T>)
    ensures (before + [x] + after)[|before| := y] == before + [y] + after
  {
  }

  /** `x` and `y` agree before position `p`. */
  ghost predicate Agree<T>(x: seq<T>, y: seq<T>, p: nat)
  {
    p <= |x| && p <= |y| && x[..p] == y[..p]
  }

  /** `x` from position `i` on is `y` from position `j` on. */
  ghost predicate Shifted<T>(x: seq<T>, i: nat, y: seq<T>, j: nat)
  {
    i <= |x| && j <= |y| && x[i..] == y[j..]
  }

  /** Agreeing prefixes agree character by character. */
  lemma AgreeChars<T>(x: seq<T>, y: seq<T>, p: nat)
    requires Agree(x, y, p)
    ensures forall k :: 0 <= k < p ==> x[k] == y[k]
  {
    forall k | 0 <= k < p ensures x[k] == y[k] {
      assert x[k] == x[..p][k];
    }
  }

  /** Agreeing suffixes have one length and agree character by character. */
  lemma ShiftedChars<T>(x: seq<T>, i: nat, y: seq<T>, j: nat)
    requires Shifted(x, i, y, j)
    ensures |x| - i == |y| - j
    ensures forall k :: i <= k < |x| ==> x[k] == y[k - i + j]
  {
    assert |x[i..]| == |y[j..]|;
    forall k | i <= k < |x| ensures x[k] == y[k - i + j] {
      assert x[k] == x[i..][k - i];
    }
  }

  /** Agreeing suffixes still agree `d` elements further on. */
  lemma ShiftedOn<T>(x: seq<T>, i: nat, y: seq<T>, j: nat, d: nat)
    requires Shifted(x, i, y, j) && i + d <= |x|
    ensures Shifted(x, i + d, y, j + d)
  {
    assert |x[i..]| == |y[j..]|;
    assert x[i + d..] == x[i..][d..];
    assert y[j + d..] == y[j..][d..];
  }

  /** `pat` occurs at `q` exactly when the slice of `s` there is `pat`. */
  lemma OccursAtSlice(s: string, pat: string, q: nat)
    ensures OccursAt(s, pat, q) <==> q + |pat| <= |s| && s[q..q + |pat|] == pat
  {
    if q + |pat| <= |s| {
      var slice := s[q..q + |pat|];
      assert forall j :: 0 <= j < |pat| ==> slice[j] == s[q + j];
    }
  }

  /** Two texts of one length that occur at one position are the same. */
  lemma OccurSame(s: string, a: string, b: string, p: nat)
    requires OccursAt(s, a, p) && OccursAt(s, b, p) && |a| == |b|
    ensures a == b
  {
    assert forall j :: 0 <= j < |a| ==> a[j] == b[j];
  }

  /** What splicing `r` in place of `s[p..p+m]` leaves where. */
  lemma SpliceFacts(s: string, p: nat, m: nat, r: string)
    requires p + m <= |s|
    ensures var s' := Splice(s, p, m, r);
      |s'| == |s| - m + |r| &&
      Agree(s', s, p) &&
      OccursAt(s', r, p) &&
      Shifted(s', p + |r|, s, p + m)
  {
    var s' := Splice(s, p, m, r);
    assert forall j :: 0 <= j < |r| ==> s'[p + j] == r[j];
    assert s'[..p] == s[..p];
    assert s'[p + |r|..] == s[p + m..];
  }

  /* ---------------------------- the matcher ---------------------------- */

  /** The run holds id characters only and stops at the end or at a non-id character. */
  lemma {:induction false} IdRunChars(s: string, i: nat)
    requires i <= |s|
    ensures forall k :: i <= k < i + IdRun(s, i) ==> IsIdChar(s[k])
    ensures i + IdRun(s, i) < |s| ==> !IsIdChar(s[i + IdRun(s, i)])
    decreases |s| - i
  {
    if i < |s| && IsIdChar(s[i]) {
      IdRunChars(s, i + 1);
    }
  }

  /** A run of id characters ended by a non-id character (or the end) has that length. */
  lemma {:induction false} IdRunIs(s: string, i: nat, j: nat)
    requires i <= j <= |s|
    requires forall k :: i <= k < j ==> IsIdChar(s[k])
    requires j < |s| ==> !IsIdChar(s[j])
    ensures IdRun(s, i) == j - i
    decreases j - i
  {
    if i < j {
      IdRunIs(s, i + 1, j);
    }
  }

  /** An occurrence of a mention token is matched whole, whatever follows it. */
  lemma MatchAtMention(s: string, p: nat, t: string)
    requires IsMention(t) && OccursAt(s, t, p)
    ensures MatchAt(s, p) == |t| && s[p..p + MatchAt(s, p)] == t
  {
    OccursAtSlice(s, t, p);
    IdRunIs(s, p + 2, p + |t| - 1);
  }

  /** Every match is a mention token. */
  lemma MatchIsMention(s: string, i: nat)
    requires i <= |s| && MatchAt(s, i) > 0
    ensures IsMention(s[i..i + MatchAt(s, i)])
  {
    IdRunChars(s, i + 2);
  }

  /** A match never runs over a `<` after its first character. */
  lemma MatchStopsAtAngle(s: string, i: nat, p: nat)
    requires i < p < |s| && s[p] == '<'
    ensures i + MatchAt(s, i) <= p
  {
    if i + 2 <= |s| {
      IdRunChars(s, i + 2);
    }
  }

  /**
   * The match at `i` depends only on the text up to the next `<`: two texts
   * that agree before position `p` and both hold `<` at `p` match alike there.
   */
  lemma MatchAtAgree(x: string, y: string, i: nat, p: nat)
    requires i < p < |x| && p < |y| && x[p] == '<' && y[p] == '<'
    requires forall k :: i <= k < p ==> x[k] == y[k]
    ensures MatchAt(x, i) == MatchAt(y, i)
  {
    if i + 2 <= p {
      var n := IdRun(x, i + 2);
      IdRunChars(x, i + 2);
      IdRunIs(y, i + 2, i + 2 + n);
    }
  }

  /** The match at a position depends only on the text from there on. */
  lemma MatchAtShift(x: string, i: nat, y: string, j: nat)
    requires Shifted(x, i, y, j)
    ensures MatchAt(x, i) == MatchAt(y, j)
  {
    ShiftedChars(x, i, y, j);
    if i + 2 <= |x| {
      var n := IdRun(x, i + 2);
      IdRunChars(x, i + 2);
      forall k | j + 2 <= k < j + 2 + n ensures IsIdChar(y[k]) {
        assert x[k - j + i] == y[k];
      }
      if j + 2 + n < |y| {
        assert x[i + 2 + n] == y[j + 2 + n];
      }
      IdRunIs(y, j + 2, j + 2 + n);
    }
  }

  /* ------------------------------ the scan ------------------------------ */

  /** The scan never steps over a `<`. */
  lemma NextStopsAtAngle(s: string, i: nat, p: nat)
    requires i < p < |s| && s[p] == '<'
    ensures NextAt(s, i) <= p
  {
    MatchStopsAtAngle(s, i, p);
  }

  /** One step of the scan before a `<` depends only on the text before it. */
  lemma StepAgree(x: string, y: string, i: nat, p: nat)
    requires i < p < |x| && p < |y| && x[p] == '<' && y[p] == '<'
    requires forall k :: 0 <= k < p ==> x[k] == y[k]
    ensures TokenAt(x, i) == TokenAt(y, i) && NextAt(x, i) == NextAt(y, i)
  {
    MatchAtAgree(x, y, i, p);
    MatchStopsAtAngle(x, i, p);
    var n := MatchAt(x, i);
    if n > 0 {
      var a, b := x[i..i + n], y[i..i + n];
      forall k | 0 <= k < n ensures a[k] == b[k] {
        assert a[k] == x[i + k] && b[k] == y[i + k];
      }
      assert a == b;
    }
  }

  /** One step of the scan depends only on the text from there on. */
  lemma StepShift(x: string, i: nat, y: string, j: nat)
    requires i < |x| && Shifted(x, i, y, j)
    ensures TokenAt(x, i) == TokenAt(y, j) && NextAt(x, i) - i == NextAt(y, j) - j
  {
    MatchAtShift(x, i, y, j);
    ShiftedChars(x, i, y, j);
    var n := MatchAt(x, i);
    if n > 0 {
      var a, b := x[i..i + n], y[j..j + n];
      forall k | 0 <= k < n ensures a[k] == b[k] {
        assert a[k] == x[i + k] && b[k] == y[j + k];
        assert x[i + k] == y[(i + k) - i + j];
      }
      assert a == b;
    }
  }

  /**
   * A `<` anchors the scan: scanning from `i` reaches position `p` exactly,
   * so the matches split into those before `p` and those from `p` on.
   */
  lemma {:induction false} SplitAtAngle(s: string, i: nat, p: nat)
    requires i <= p < |s| && s[p] == '<'
    ensures MentionsFrom(s, i) == MentionsBefore(s, i, p) + MentionsFrom(s, p)
    decreases p - i
  {
    if i < p {
      NextStopsAtAngle(s, i, p);
      var i' := NextAt(s, i);
      SplitAtAngle(s, i', p);
      AppendAssoc(TokenAt(s, i), MentionsBefore(s, i', p), MentionsFrom(s, p));
    }
  }

  /** The matches before a `<` depend only on the text before it. */
  lemma {:induction false} BeforeAgree(x: string, y: string, i: nat, p: nat)
    requires i <= p < |x| && p < |y| && x[p] == '<' && y[p] == '<'
    requires forall k :: 0 <= k < p ==> x[k] == y[k]
    ensures MentionsBefore(x, i, p) == MentionsBefore(y, i, p)
    decreases p - i
  {
    if i < p {
      StepAgree(x, y, i, p);
      NextStopsAtAngle(x, i, p);
      BeforeAgree(x, y, NextAt(x, i), p);
    }
  }

  /** The matches from a position depend only on the text from there on. */
  lemma {:induction false} FromShift(x: string, i: nat, y: string, j: nat)
    requires Shifted(x, i, y, j)
    ensures MentionsFrom(x, i) == MentionsFrom(y, j)
    decreases |x| - i
  {
    if i < |x| {
      StepShift(x, i, y, j);
      var i', j' := NextAt(x, i), NextAt(y, j);
      ShiftedOn(x, i, y, j, i' - i);
      FromShift(x, i', y, j');
    }
  }

  /** Every element the scan returns is a mention token. */
  lemma {:induction false} MentionsFromAreMentions(s: string, i: nat)
    requires i <= |s|
    ensures forall t :: t in MentionsFrom(s, i) ==> IsMention(t)
    decreases |s| - i
  {
    if i < |s| {
      MentionsFromAreMentions(s, NextAt(s, i));
      if MatchAt(s, i) > 0 {
        MatchIsMention(s, i);
      }
    }
  }

  /** Each of the matches is a mention token. */
  lemma MentionAt(s: string, k: nat)
    requires k < |Mentions(s)|
    ensures IsMention(Mentions(s)[k])
  {
    MentionsFromAreMentions(s, 0);
  }

  /** Every element the scan from `i` returns occurs in the text at or after `i`. */
  lemma {:induction false} MentionsFromOccur(s: string, i: nat, t: string)
    requires i <= |s| && t in MentionsFrom(s, i)
    ensures exists q: nat :: i <= q && OccursAt(s, t, q)
    decreases |s| - i
  {
    if t in TokenAt(s, i) {
      OccursAtSlice(s, t, i);
    } else {
      MentionsFromOccur(s, NextAt(s, i), t);
    }
  }

  /** Every match before `p` occurs in the text at a position before `p`. */
  lemma {:induction false} MentionsBeforeOccur(s: string, i: nat, p: nat, t: string)
    requires i <= |s| && t in MentionsBefore(s, i, p)
    ensures exists q: nat :: i <= q < p && OccursAt(s, t, q)
    decreases |s| - i
  {
    if t in TokenAt(s, i) {
      OccursAtSlice(s, t, i);
    } else {
      MentionsBeforeOccur(s, NextAt(s, i), p, t);
    }
  }

  /* ---------------------------- replacement ---------------------------- */

  /** `indexOf` finds the first occurrence: `pat` occurs nowhere between `from` and the result. */
  lemma {:induction false} IndexFromFirst(s: string, pat: string, from: nat, q: nat)
    requires from <= q <= |s|
    requires var r := IndexFrom(s, pat, from); r == -1 || q < r
    ensures !OccursAt(s, pat, q)
    decreases |s| - from
  {
    if from < q {
      IndexFromFirst(s, pat, from + 1, q);
    }
  }

  /** `pat` occurs at `p` and nowhere before. */
  ghost predicate FirstOccurrence(s: string, pat: string, p: nat)
  {
    OccursAt(s, pat, p) && forall q: nat :: q < p ==> !OccursAt(s, pat, q)
  }

  /** `indexOf` finds the first occurrence. */
  lemma IndexOfFirst(s: string, pat: string)
    requires IndexOf(s, pat) != -1
    ensures FirstOccurrence(s, pat, IndexOf(s, pat))
  {
    var p := IndexOf(s, pat);
    forall q: nat | q < p ensures !OccursAt(s, pat, q) {
      IndexFromFirst(s, pat, 0, q);
    }
  }

  /** Putting back the slice a sequence holds at `p` gives the sequence. */
  lemma SpliceSame<T>(s: seq<T>, p: nat, m: nat)
    requires p + m <= |s|
    ensures s[..p] + (s[p..p + m] + s[p + m..]) == s
  {
  }

  /** Replacing a text's first occurrence of `pat` by `pat` itself leaves the text as it was. */
  lemma ReplaceBySelf(s: string, pat: string)
    ensures ReplaceFirst(s, pat, pat) == s
  {
    var p := IndexOf(s, pat);
    if p != -1 {
      OccursAtSlice(s, pat, p);
      SpliceSame(s, p, |pat|);
    }
  }

  /** Replacing an occurring token changes the text exactly when the replacement differs. */
  lemma ReplaceFirstUnchangedIff(s: string, pat: string, rep: string)
    requires IndexOf(s, pat) != -1
    ensures ReplaceFirst(s, pat, rep) == s <==> rep == pat
  {
    var p := IndexOf(s, pat);
    ReplaceBySelf(s, pat);
    SpliceFacts(s, p, |pat|, rep);
    if ReplaceFirst(s, pat, rep) == s {
      OccurSame(s, rep, pat, p);
    }
  }

  /**
   * At an occurrence of a mention token the matches of the text split into
   * those before it, the token, and those after it.
   */
  lemma SplitAtMention(s: string, p: nat, t: string)
    requires IsMention(t) && OccursAt(s, t, p)
    ensures Mentions(s) == MentionsUpTo(s, p) + [t] + MentionsAfter(s, p + |t|)
  {
    AngleAt(s, t, p);
    SplitAtAngle(s, 0, p);
    ScanAtMention(s, p, t);
    AppendAssoc(MentionsBefore(s, 0, p), [t], MentionsFrom(s, p + |t|));
  }

  /** The scan takes an occurrence of a mention token whole and goes on after it. */
  lemma ScanAtMention(s: string, p: nat, t: string)
    requires IsMention(t) && OccursAt(s, t, p)
    ensures MentionsFrom(s, p) == [t] + MentionsFrom(s, p + |t|)
  {
    MatchAtMention(s, p, t);
    assert MentionsFrom(s, p) == TokenAt(s, p) + MentionsFrom(s, NextAt(s, p));
    assert TokenAt(s, p) == [t] && NextAt(s, p) == p + |t|;
  }

  /** A mention token that occurs at `p` starts with a `<` there. */
  lemma AngleAt(s: string, t: string, p: nat)
    requires IsMention(t) && OccursAt(s, t, p)
    ensures p < |s| && s[p] == '<'
  {
    assert s[p + 0] == t[0];
  }

  /** Two texts that agree before a `<` at `p` have the same matches before it. */
  lemma UpToUnchanged(x: string, y: string, p: nat)
    requires p < |x| && p < |y| && x[p] == '<' && y[p] == '<'
    requires Agree(x, y, p)
    ensures MentionsUpTo(x, p) == MentionsUpTo(y, p)
  {
    AgreeChars(x, y, p);
    BeforeAgree(x, y, 0, p);
  }

  /** Two texts that agree from `i` and `j` on have the same matches from there. */
  lemma AfterUnchanged(x: string, i: nat, y: string, j: nat)
    requires Shifted(x, i, y, j)
    ensures MentionsAfter(x, i) == MentionsAfter(y, j)
  {
    FromShift(x, i, y, j);
  }

  /**
   * Texts that hold `<` at `p`, agree before it, and agree after the `m`
   * and `m'` characters at `p`, have the same matches before and after those.
   */
  lemma SpliceKeepsRest(s: string, p: nat, m: nat, s': string, m': nat)
    requires p < |s| && p < |s'| && s[p] == '<' && s'[p] == '<'
    requires Agree(s', s, p)
    requires Shifted(s', p + m', s, p + m)
    ensures MentionsUpTo(s', p) == MentionsUpTo(s, p)
    ensures MentionsAfter(s', p + m') == MentionsAfter(s, p + m)
  {
    UpToUnchanged(s', s, p);
    AfterUnchanged(s', p + m', s, p + m);
  }

  /**
   * A text `s'` that holds the mention token `rep` at `p` where `s` holds
   * the mention token `t`, and agrees with `s` elsewhere, has the matches
   * of `s` before and after that place.
   */
  lemma SpliceKeepsMatches(s: string, p: nat, t: string, s': string, rep: string)
    requires IsMention(t) && OccursAt(s, t, p) && IsMention(rep) && OccursAt(s', rep, p)
    requires Agree(s', s, p)
    requires Shifted(s', p + |rep|, s, p + |t|)
    ensures MentionsUpTo(s', p) == MentionsUpTo(s, p)
    ensures MentionsAfter(s', p + |rep|) == MentionsAfter(s, p + |t|)
  {
    AngleAt(s, t, p);
    AngleAt(s', rep, p);
    SpliceKeepsRest(s, p, |t|, s', |rep|);
  }

  /**
   * A text `s'` that holds the mention token `rep` at `p` and has the
   * matches of `s` before and after that place has the matches of `s`
   * with `rep` in the place of the token `t` there.
   */
  lemma SpliceMentionAt(s: string, p: nat, t: string, s': string, rep: string)
    requires IsMention(rep) && OccursAt(s', rep, p) && p + |t| <= |s|
    requires MentionsUpTo(s', p) == MentionsUpTo(s, p)
    requires MentionsAfter(s', p + |rep|) == MentionsAfter(s, p + |t|)
    ensures Mentions(s') == MentionsUpTo(s, p) + [rep] + MentionsAfter(s, p + |t|)
  {
    SplitAtMention(s', p, rep);
  }

  /**
   * Writing the mention token `rep` over an occurrence of the mention token
   * `t` puts `rep` in the place of `t` among the matches, and leaves the
   * matches before and after it as they were.
   */
  lemma SpliceMention(s: string, p: nat, t: string, rep: string)
    requires IsMention(t) && OccursAt(s, t, p) && IsMention(rep)
    ensures Mentions(Splice(s, p, |t|, rep)) == MentionsUpTo(s, p) + [rep] + MentionsAfter(s, p + |t|)
  {
    var s' := Splice(s, p, |t|, rep);
    SpliceFacts(s, p, |t|, rep);
    SpliceKeepsMatches(s, p, t, s', rep);
    SpliceMentionAt(s, p, t, s', rep);
  }

  /** No match before the first occurrence of a token equals the token. */
  lemma NoMatchBeforeFirst(s: string, t: string, p: nat)
    requires FirstOccurrence(s, t, p)
    ensures t !in MentionsUpTo(s, p)
  {
    if t in MentionsBefore(s, 0, p) {
      MentionsBeforeOccur(s, 0, p, t);
    }
  }

  /** The first index of `x` in `before + [x] + after`, when `before` lacks it. */
  lemma FirstIndexPast<T>(before: seq<T>, x: T, after: seq<T>)
    requires x !in before
    ensures FirstIndex(before + [x] + after, x) == |before|
  {
    var xs := before + [x] + after;
    assert xs[|before|] == x;
  }

  /**
   * In `toks == before + [x] + after` with no `x` in `before`, the first `x`
   * is the one after `before`, at or before any other place of `x`, and
   * `before + [y] + after` is `toks` with `y` at that place.
   */
  lemma FirstPlace<T>(toks: seq<T>, idx: nat, before: seq<T>, x: T, after: seq<T>, y: T, updated: seq<T>)
    requires idx < |toks| && toks[idx] == x
    requires toks == before + [x] + after && x !in before
    requires updated == before + [y] + after
    ensures var j := FirstIndex(toks, x);
      j <= idx && updated == toks[j := y] &&
      ((forall k :: 0 <= k < idx ==> toks[k] != x) ==> j == idx)
  {
    FirstIndexPast(before, x, after);
    UpdateMiddle(before, x, y, after);
  }

  /**
   * Around the first occurrence `p` of a mention token `t`, the matches of
   * the text and of the text with `rep` written over `t` differ only in `t`
   * and `rep`, and no earlier match is `t`.
   */
  lemma ReplaceAround(s: string, t: string, rep: string, p: nat)
    requires IsMention(t) && IsMention(rep) && FirstOccurrence(s, t, p)
    ensures Mentions(s) == MentionsUpTo(s, p) + [t] + MentionsAfter(s, p + |t|)
    ensures t !in MentionsUpTo(s, p)
    ensures Mentions(Splice(s, p, |t|, rep)) == MentionsUpTo(s, p) + [rep] + MentionsAfter(s, p + |t|)
  {
    SplitAtMention(s, p, t);
    NoMatchBeforeFirst(s, t, p);
    SpliceMention(s, p, t, rep);
  }

  /** Every match occurs in the text, so `indexOf` finds it. */
  lemma MentionIsFound(s: string, idx: nat)
    requires idx < |Mentions(s)|
    ensures IndexOf(s, Mentions(s)[idx]) != -1
  {
    var t := Mentions(s)[idx];
    MentionsFromOccur(s, 0, t);
    var q: nat :| OccursAt(s, t, q);
    if IndexOf(s, t) == -1 {
      IndexFromFirst(s, t, 0, q);
    }
  }

  /**
   * `topic.replace(toks[idx], rep)` with `toks = topic.match(...)`: the
   * rewritten occurrence is the first match equal to `toks[idx]` (index
   * `j`), which is `idx` itself unless an equal token comes earlier, and
   * the matches of the new topic are the old ones with `j` replaced by `rep`.
   */
  lemma ReplaceMention(s: string, idx: nat, rep: string)
    requires idx < |Mentions(s)| && IsMention(rep)
    ensures var toks := Mentions(s); var j := FirstIndex(toks, toks[idx]);
      j <= idx &&
      Mentions(ReplaceFirst(s, toks[idx], rep)) == toks[j := rep] &&
      ((forall k :: 0 <= k < idx ==> toks[k] != toks[idx]) ==> j == idx)
  {
    var toks := Mentions(s);
    var t := toks[idx];
    MentionAt(s, idx);
    MentionIsFound(s, idx);
    IndexOfFirst(s, t);
    var p := IndexOf(s, t);
    ReplaceAround(s, t, rep, p);
    FirstPlace(toks, idx, MentionsUpTo(s, p), t, MentionsAfter(s, p + |t|), rep, Mentions(Splice(s, p, |t|, rep)));
  }

  /** A mention of an id made of `[A-Z0-9]` characters is a mention token. */
  lemma MentionOfIsMention(id: string)
    requires id != [] && forall k :: 0 <= k < |id| ==> IsIdChar(id[k])
    ensures IsMention(MentionOf(id))
  {
    var t := MentionOf(id);
    assert forall k :: 2 <= k < |t| - 1 ==> t[k] == id[k - 2];
  }

  /**
   * With a duplicated token the replacement lands on the first copy: in
   * "<@A> <@A>", rewriting the second mention to `<@B>` changes the first.
   */
  lemma DuplicateTokenRewritesFirstCopy()
    ensures var s := "<@A> <@A>";
      Mentions(s) == ["<@A>", "<@A>"] &&
      Mentions(ReplaceFirst(s, Mentions(s)[1], "<@B>")) == ["<@B>", "<@A>"]
  {
    var s := "<@A> <@A>";
    var a := "<@A>";
    assert IsMention(a) && IsMention("<@B>");
    assert OccursAt(s, a, 0) && OccursAt(s, a, 5);
    MatchAtMention(s, 0, a);
    MatchAtMention(s, 5, a);
    assert MatchAt(s, 4) == 0;
    assert MentionsFrom(s, 5) == [a] + MentionsFrom(s, 9);
    assert MentionsFrom(s, 4) == MentionsFrom(s, 5);
    assert MentionsFrom(s, 0) == [a] + MentionsFrom(s, 4);
    var toks := Mentions(s);
    assert toks == [a, a];
    ReplaceMention(s, 1, "<@B>");
    assert FirstIndex(toks, a) == 0;
  }
}
