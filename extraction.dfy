/** Locating the JSON text inside the model's free-text reply: the search for
    a ```json fenced block first, the outermost-brace slice only when there is
    no such block. */
module Extraction {
  import opened Outcomes
  import opened PyStrings

  const FenceOpen: string := "```json"
  const FenceClose: string := "```"

  /** The ValueError message of the brace path. */
  const NoJsonObjectMessage: string := "Could not find a JSON object in the response."

  // ---------------------------------------------------------------------------
  // What re.search(r'```json\s*(.*?)\s*```', text, re.DOTALL) selects.

  /** One way for the pattern to match text: the opening marker at p, the
      group text[g0..g1], the closing marker at q, whitespace around the group. */
  ghost predicate MatchAt(t: string, p: int, g0: int, g1: int, q: int) {
    && OccursAt(t, FenceOpen, p)
    && OccursAt(t, FenceClose, q)
    && p + |FenceOpen| <= g0 <= g1 <= q
    && AllSpace(t[p + |FenceOpen|..g0])
    && AllSpace(t[g1..q])
  }

  ghost predicate NoFenceMatch(t: string) {
    forall p, g0, g1, q :: !MatchAt(t, p, g0, g1, q)
  }

  /** The match a backtracking search reports: the leftmost start; at that
      start the longest leading \s*; then the shortest lazy group. */
  ghost predicate RegexSelects(t: string, p: int, g0: int, g1: int) {
    && (exists q :: MatchAt(t, p, g0, g1, q))
    && (forall p', a, b, q :: MatchAt(t, p', a, b, q) ==> p <= p')
    && (forall a, b, q :: MatchAt(t, p, a, b, q) ==> a <= g0)
    && (forall b, q :: MatchAt(t, p, g0, b, q) ==> g1 <= b)
  }

  // ---------------------------------------------------------------------------
  // The same search, computed with find.

  /** Where a fenced match starts and where its group starts and ends. */
  datatype FenceMatch = FenceMatch(start: nat, groupStart: nat, groupEnd: nat)

  /** A run of whitespace never crosses a backtick. */
  lemma SpaceRunStopsAtBacktick(t: string, i: nat, j: nat, q: nat)
    requires i <= j <= |t| && i <= q < |t| && t[q] == '`'
    requires AllSpace(t[i..j])
    ensures j <= q
  {
    AllSpaceAt(t, i, j);
    assert !IsSpace(t[q]);
  }

  /** The leftmost ```json, then the first ``` at or after its end, then the
      whitespace on either side of what lies between them trimmed off. */
  function SearchFence(t: string): (m: Option<FenceMatch>)
    ensures m.Some? ==> m.value.start == FindFrom(t, FenceOpen, 0)
    ensures m.Some? ==> m.value.start + |FenceOpen| <= m.value.groupStart <= m.value.groupEnd <= |t|
    ensures m.Some? ==>
              var q := FindFrom(t, FenceClose, m.value.start + |FenceOpen|);
              && m.value.groupEnd <= q
              && m.value.groupStart == SkipSpace(t, m.value.start + |FenceOpen|)
              && m.value.groupEnd == TrimEnd(t, m.value.groupStart, q)
  {
    var p := FindFrom(t, FenceOpen, 0);
    if p == -1 then None
    else
      var q := FindFrom(t, FenceClose, p + |FenceOpen|);
      if q == -1 then None
      else
        var g0 := SkipSpace(t, p + |FenceOpen|);
        OccursAtChar(t, FenceClose, q, 0);
        SpaceRunStopsAtBacktick(t, p + |FenceOpen|, g0, q);
        Some(FenceMatch(p, g0, TrimEnd(t, g0, q)))
  }

  /** SearchFence finds a match exactly when the regular expression matches,
      and then reports the very match the regular-expression search selects. */
  lemma SearchFenceIsRegexSearch(t: string)
    ensures SearchFence(t).None? <==> NoFenceMatch(t)
    ensures SearchFence(t).Some? ==>
              RegexSelects(t, SearchFence(t).value.start, SearchFence(t).value.groupStart, SearchFence(t).value.groupEnd)
  {
    var p := FindFrom(t, FenceOpen, 0);
    if p == -1 {
      forall p', a, b, q | MatchAt(t, p', a, b, q) ensures false { }
    } else {
      var q := FindFrom(t, FenceClose, p + |FenceOpen|);
      if q == -1 {
        forall p', a, b, c | MatchAt(t, p', a, b, c) ensures false { }
      } else {
        var m := SearchFence(t).value;
        var g0, g1 := m.groupStart, m.groupEnd;
        assert MatchAt(t, p, g0, g1, q);
        OccursAtChar(t, FenceClose, q, 0);
        forall a, b, c | MatchAt(t, p, a, b, c) ensures a <= g0 {
          AllSpaceAt(t, p + |FenceOpen|, a);
        }
        forall b, c | MatchAt(t, p, g0, b, c) ensures g1 <= b {
          AllSpaceAt(t, b, c);
        }
      }
    }
  }

  /** The text of the fenced block, group(1).strip(), when there is one. */
  function FencedCandidate(t: string): (r: Option<string>)
    ensures r.None? <==> NoFenceMatch(t)
    ensures r.Some? ==> IsStripped(r.value)
  {
    SearchFenceIsRegexSearch(t);
    match SearchFence(t)
    case None => None
    case Some(m) => Some(Strip(t[m.groupStart..m.groupEnd]))
  }

  /** The group the search reports is already stripped: it starts and ends
      with a character that is not whitespace, unless it is empty. */
  lemma FenceGroupStripped(t: string)
    requires SearchFence(t).Some?
    ensures var m := SearchFence(t).value; IsStripped(t[m.groupStart..m.groupEnd])
  {
    var m := SearchFence(t).value;
    var g0, g1 := m.groupStart, m.groupEnd;
    if g0 < g1 {
      assert t[g0..g1][0] == t[g0];
      assert t[g0..g1][g1 - g0 - 1] == t[g1 - 1];
    }
  }

  /** The fenced candidate is the stripped text between the leftmost ```json
      and the first ``` after it, and is exactly the reported group. */
  lemma FencedCandidateBetweenMarkers(t: string)
    requires FencedCandidate(t).Some?
    ensures var p := FindFrom(t, FenceOpen, 0);
            var q := FindFrom(t, FenceClose, p + |FenceOpen|);
            && 0 <= p && p + |FenceOpen| <= q
            && FencedCandidate(t).value == Strip(t[p + |FenceOpen|..q])
    ensures var m := SearchFence(t).value; FencedCandidate(t).value == t[m.groupStart..m.groupEnd]
  {
    var m := SearchFence(t).value;
    assert FencedCandidate(t).value == Strip(t[m.groupStart..m.groupEnd]);
    var p := FindFrom(t, FenceOpen, 0);
    FenceGroupIsStrippedSpan(t, p, FindFrom(t, FenceClose, p + |FenceOpen|));
  }

  /** The reported group is what strip() leaves of the text between the
      markers, and strip() leaves the group itself unchanged. */
  lemma FenceGroupIsStrippedSpan(t: string, p: int, q: int)
    requires SearchFence(t).Some?
    requires p == FindFrom(t, FenceOpen, 0) && q == FindFrom(t, FenceClose, p + |FenceOpen|)
    ensures 0 <= p && p + |FenceOpen| <= q
    ensures var m := SearchFence(t).value;
            Strip(t[m.groupStart..m.groupEnd]) == t[m.groupStart..m.groupEnd] == Strip(t[p + |FenceOpen|..q])
  {
    var m := SearchFence(t).value;
    var lo, g0, g1 := p + |FenceOpen|, m.groupStart, m.groupEnd;
    assert m.start == p;
    assert lo <= g0 <= g1 <= q <= |t|;
    assert g0 == SkipSpace(t, lo) && g1 == TrimEnd(t, g0, q);
    TrimmedSpan(t, lo, g0, g1, q);
  }

  /** Skipping the whitespace after lo and trimming the whitespace before hi
      leaves a span that strip() keeps as it is, and that is what strip()
      makes of the whole text between lo and hi. */
  lemma TrimmedSpan(t: string, lo: nat, g0: nat, g1: nat, hi: nat)
    requires lo <= g0 <= g1 <= hi <= |t|
    requires g0 == SkipSpace(t, lo) && g1 == TrimEnd(t, g0, hi)
    ensures Strip(t[g0..g1]) == t[g0..g1] == Strip(t[lo..hi])
  {
    var g := t[g0..g1];
    if g0 < g1 {
      assert g[0] == t[g0] && g[|g| - 1] == t[g1 - 1];
    }
    StripStripped(g);
    StripSlice(t, lo, g0, g1, hi);
  }

  /** The fenced candidate never contains ```, and stripping it again
      changes nothing. */
  lemma FencedCandidateClean(t: string)
    requires FencedCandidate(t).Some?
    ensures Strip(FencedCandidate(t).value) == FencedCandidate(t).value
    ensures FindFrom(FencedCandidate(t).value, FenceClose, 0) == -1
  {
    FencedCandidateBetweenMarkers(t);
    var m := SearchFence(t).value;
    FenceGroupStripped(t);
    StripSlice(t, m.groupStart, m.groupStart, m.groupEnd, m.groupEnd);
    forall k | OccursAt(t[m.groupStart..m.groupEnd], FenceClose, k) ensures false {
      OccursInSlice(t, m.groupStart, m.groupEnd, FenceClose, k);
    }
  }

  // ---------------------------------------------------------------------------
  // The brace path.

  /** find('{') and rfind('}') + 1, the error when either bound is missing or
      they are out of order (the `end == -1` test included, though it never
      fires), and otherwise the stripped slice between them. */
  function BraceCandidate(t: string): (r: Result<string, string>)
    ensures r.Err? ==> r.error == NoJsonObjectMessage
  {
    var start := FindFrom(t, "{", 0);
    var end := RFind(t, "}") + 1;
    if start == -1 || end == -1 || end < start then Err(NoJsonObjectMessage)
    else Ok(Strip(t[start..end]))
  }

  /** rfind(...) + 1 is never -1: the `end == -1` test is dead. */
  lemma BraceEndNeverMinusOne(t: string)
    ensures RFind(t, "}") + 1 >= 0
  {
  }

  /** '{' occurs nowhere before index i, and at i. */
  ghost predicate FirstOpenBrace(t: string, i: int) {
    0 <= i < |t| && t[i] == '{' && forall k :: 0 <= k < i ==> t[k] != '{'
  }

  /** '}' occurs nowhere after index j, and at j. */
  ghost predicate LastCloseBrace(t: string, j: int) {
    0 <= j < |t| && t[j] == '}' && forall k :: j < k < |t| ==> t[k] != '}'
  }

  lemma FindOpenBrace(t: string, i: int)
    requires FirstOpenBrace(t, i)
    ensures FindFrom(t, "{", 0) == i
  {
    OccursAtSingle(t, '{', i);
    var r := FindFrom(t, "{", 0);
    if r >= 0 {
      OccursAtSingle(t, '{', r);
    }
  }

  lemma FindCloseBrace(t: string, j: int)
    requires LastCloseBrace(t, j)
    ensures RFind(t, "}") == j
  {
    OccursAtSingle(t, '}', j);
    var r := RFind(t, "}");
    if r >= 0 {
      OccursAtSingle(t, '}', r);
    }
  }

  lemma NoCloseBrace(t: string)
    requires '}' !in t
    ensures RFind(t, "}") == -1
  {
    var r := RFind(t, "}");
    if r != -1 {
      OccursAtSingle(t, '}', r);
    }
  }

  /** With no '{' in the text, the brace path fails. */
  lemma BraceCandidateNoOpen(t: string)
    requires '{' !in t
    ensures BraceCandidate(t) == Err(NoJsonObjectMessage)
  {
    var r := FindFrom(t, "{", 0);
    if r != -1 {
      OccursAtSingle(t, '{', r);
    }
  }

  /** With the first '{' at i, the brace path fails exactly when i > 0 and
      no '}' stands at i - 1 or later; a '{' at index 0 always gives a
      candidate. */
  lemma BraceCandidateFailsIff(t: string, i: int)
    requires FirstOpenBrace(t, i)
    ensures BraceCandidate(t).Err? <==> i > 0 && forall k :: i - 1 <= k < |t| ==> t[k] != '}'
  {
    FindOpenBrace(t, i);
    var r := RFind(t, "}");
    if r >= 0 {
      OccursAtSingle(t, '}', r);
    }
    forall k | i - 1 <= k < |t| && 0 <= k
      ensures t[k] == '}' ==> k <= r
    {
      OccursAtSingle(t, '}', k);
    }
  }

  /** First '{' at i and last '}' at j >= i: the candidate is exactly the
      span from the one to the other, braces included. */
  lemma BraceCandidateSpan(t: string, i: int, j: int)
    requires FirstOpenBrace(t, i) && LastCloseBrace(t, j) && i <= j
    ensures BraceCandidate(t) == Ok(t[i..j + 1])
  {
    FindOpenBrace(t, i);
    FindCloseBrace(t, j);
    var s := t[i..j + 1];
    assert s[0] == '{' && s[|s| - 1] == '}';
    assert s[..0] == [] && s[|s|..] == [] && s[0..|s|] == s;
    StripUnique(s, 0, |s|);
  }

  /** The last '}' immediately before the first '{', or no '}' at all and
      the first '{' at index 0: the candidate is empty. */
  lemma BraceCandidateEmpty(t: string, i: int)
    requires FirstOpenBrace(t, i)
    requires LastCloseBrace(t, i - 1) || (i == 0 && '}' !in t)
    ensures BraceCandidate(t) == Ok("")
  {
    FindOpenBrace(t, i);
    if i == 0 && '}' !in t {
      NoCloseBrace(t);
    } else {
      FindCloseBrace(t, i - 1);
    }
    BraceCandidateAtBounds(t, i, i);
  }

  /** Once the bounds are known and in order, the candidate is the stripped
      slice between them. */
  lemma BraceCandidateAtBounds(t: string, start: int, end: int)
    requires FindFrom(t, "{", 0) == start && RFind(t, "}") + 1 == end && 0 <= start <= end
    ensures BraceCandidate(t) == Ok(Strip(t[start..end]))
  {
  }

  // ---------------------------------------------------------------------------
  // Both strategies together.

  /** The fenced block when the pattern matches, the brace path otherwise. */
  function ExtractCandidate(t: string): (r: Result<string, string>)
    ensures r.Ok? ==> IsStripped(r.value)
    ensures r.Err? ==> r.error == NoJsonObjectMessage && NoFenceMatch(t)
  {
    match FencedCandidate(t)
    case Some(c) => Ok(c)
    case None => BraceCandidate(t)
  }

  /** The two strategies in order: without a fenced match the brace path
      decides; with one, the candidate is the stripped text between the
      leftmost ```json and the first ``` after it, whatever braces the reply
      holds. */
  lemma ExtractCandidateStrategy(t: string)
    ensures NoFenceMatch(t) ==> ExtractCandidate(t) == BraceCandidate(t)
    ensures !NoFenceMatch(t) ==>
              var p := FindFrom(t, FenceOpen, 0);
              var q := FindFrom(t, FenceClose, p + |FenceOpen|);
              && 0 <= p && p + |FenceOpen| <= q
              && ExtractCandidate(t) == Ok(Strip(t[p + |FenceOpen|..q]))
  {
    SearchFenceIsRegexSearch(t);
    if !NoFenceMatch(t) {
      FencedCandidateBetweenMarkers(t);
    }
  }

  /** A fenced block wins over any braces, even when its content is empty:
      "```json```" ahead of everything else yields the empty candidate. */
  lemma EmptyFenceNoFallback(t: string, p: int)
    requires OccursAt(t, FenceOpen + FenceClose, p)
    requires forall k :: 0 <= k < p ==> !OccursAt(t, FenceOpen, k)
    ensures ExtractCandidate(t) == Ok("")
  {
    OccursAtConcat(t, FenceOpen, FenceClose, p);
    OccursAtChar(t, FenceClose, p + |FenceOpen|, 0);
    assert FindFrom(t, FenceOpen, 0) == p;
    assert FindFrom(t, FenceClose, p + |FenceOpen|) == p + |FenceOpen|;
    assert AllSpace(t[p + |FenceOpen|..p + |FenceOpen|]);
    SkipSpaceUnique(t, p + |FenceOpen|, p + |FenceOpen|);
  }

  /** A reply laid out as: no ```json before index p, ```json at p,
      whitespace, a stripped body, whitespace, and at q the first ``` after
      the opener. Its candidate is the body, whatever backticks stand before
      the opener or inside the body. */
  lemma FencedBodyExtracted(t: string, p: nat, a: nat, b: nat, q: nat)
    requires OccursAt(t, FenceOpen, p) && OccursAt(t, FenceClose, q)
    requires forall k :: 0 <= k < p ==> !OccursAt(t, FenceOpen, k)
    requires p + |FenceOpen| <= a <= b <= q
    requires forall k :: p + |FenceOpen| <= k < q ==> !OccursAt(t, FenceClose, k)
    requires AllSpace(t[p + |FenceOpen|..a]) && AllSpace(t[b..q])
    requires IsStripped(t[a..b])
    ensures ExtractCandidate(t) == Ok(t[a..b])
  {
    assert FindFrom(t, FenceOpen, 0) == p;
    assert FindFrom(t, FenceClose, p + |FenceOpen|) == q;
    StripSlice(t, p + |FenceOpen|, a, b, q);
    FencedCandidateBetweenMarkers(t);
  }

  /** A reply with no fenced block whose first '{' is at i and last '}' at
      j >= i: its candidate is the span from the one to the other. */
  lemma BraceBodyExtracted(t: string, i: int, j: int)
    requires NoFenceMatch(t)
    requires FirstOpenBrace(t, i) && LastCloseBrace(t, j) && i <= j
    ensures ExtractCandidate(t) == Ok(t[i..j + 1])
  {
    SearchFenceIsRegexSearch(t);
    BraceCandidateSpan(t, i, j);
  }
}
