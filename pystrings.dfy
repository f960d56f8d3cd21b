/** The part of Python's str behaviour that the /analyze handler relies on:
    isspace (which is also what the regular-expression class \s matches in a
    str pattern), strip(), find(), rfind(), startswith() and split(sep). */
module PyStrings {

  /** str.isspace() for a single character: the code points CPython's
      Py_UNICODE_ISSPACE accepts. The ASCII whitespace characters are among
      them; a backtick, '{', '}' and every character that can be printed are
      not. */
  predicate IsSpace(c: char)
    ensures c == ' ' || c == '\t' || c == '\n' || c == '\r' ==> IsSpace(c)
    ensures '!' <= c <= '~' ==> !IsSpace(c)
  {
    || ('\t' <= c <= '\r')
    || ('\U{1C}' <= c <= '\U{1F}')
    || c == ' '
    || c == '\U{85}'
    || c == '\U{A0}'
    || c == '\U{1680}'
    || ('\U{2000}' <= c <= '\U{200A}')
    || c == '\U{2028}'
    || c == '\U{2029}'
    || c == '\U{202F}'
    || c == '\U{205F}'
    || c == '\U{3000}'
  }

  predicate AllSpace(s: string) {
    forall i :: 0 <= i < |s| ==> IsSpace(s[i])
  }

  /** Neither the first nor the last character is whitespace. */
  predicate IsStripped(s: string) {
    s == [] || (!IsSpace(s[0]) && !IsSpace(s[|s| - 1]))
  }

  /** The end of the run of whitespace that starts at i. */
  function SkipSpace(s: string, i: nat): (j: nat)
    requires i <= |s|
    ensures i <= j <= |s|
    ensures AllSpace(s[i..j])
    ensures j == |s| || !IsSpace(s[j])
    decreases |s| - i
  {
    if i < |s| && IsSpace(s[i]) then
      var j := SkipSpace(s, i + 1);
      assert s[i..j] == [s[i]] + s[i + 1..j];
      j
    else
      i
  }

  /** The start of the run of whitespace that ends at hi, stopping at lo. */
  function TrimEnd(s: string, lo: nat, hi: nat): (j: nat)
    requires lo <= hi <= |s|
    ensures lo <= j <= hi
    ensures AllSpace(s[j..hi])
    ensures j == lo || !IsSpace(s[j - 1])
    decreases hi - lo
  {
    if lo < hi && IsSpace(s[hi - 1]) then
      var j := TrimEnd(s, lo, hi - 1);
      assert s[j..hi] == s[j..hi - 1] + [s[hi - 1]];
      j
    else
      hi
  }

  /** str.strip() with no argument. */
  function Strip(s: string): (r: string)
    ensures IsStripped(r)
    ensures |r| <= |s|
    ensures r == [] <==> AllSpace(s)
  {
    var i := SkipSpace(s, 0);
    var j := TrimEnd(s, i, |s|);
    if i == |s| then
      assert s[0..i] == s;
      s[i..j]
    else
      assert s[i] == s[i..|s|][0];
      s[i..j]
  }

  lemma {:induction false} SkipSpaceUnique(s: string, i: nat, j: nat)
    requires i <= j <= |s|
    requires AllSpace(s[i..j])
    requires j == |s| || !IsSpace(s[j])
    ensures SkipSpace(s, i) == j
    decreases j - i
  {
    if i < j {
      assert s[i] == s[i..j][0];
      assert s[i + 1..j] == s[i..j][1..];
      SkipSpaceUnique(s, i + 1, j);
    }
  }

  lemma {:induction false} TrimEndUnique(s: string, lo: nat, j: nat, hi: nat)
    requires lo <= j <= hi <= |s|
    requires AllSpace(s[j..hi])
    requires j == lo || !IsSpace(s[j - 1])
    ensures TrimEnd(s, lo, hi) == j
    decreases hi - j
  {
    if j < hi {
      assert s[hi - 1] == s[j..hi][hi - 1 - j];
      assert s[j..hi - 1] == s[j..hi][..hi - 1 - j];
      TrimEndUnique(s, lo, j, hi - 1);
    }
  }

  /** Strip is determined by what it keeps: whenever s is whitespace, then
      a stripped middle part, then whitespace, Strip returns that middle part. */
  lemma StripUnique(s: string, i: nat, j: nat)
    requires i <= j <= |s|
    requires AllSpace(s[..i]) && AllSpace(s[j..])
    requires IsStripped(s[i..j])
    ensures Strip(s) == s[i..j]
  {
    if i < j {
      assert s[i] == s[i..j][0];
      assert s[j - 1] == s[i..j][j - 1 - i];
      assert s[0..i] == s[..i];
      SkipSpaceUnique(s, 0, i);
      TrimEndUnique(s, i, j, |s|);
    } else {
      assert forall k :: 0 <= k < |s| ==> IsSpace(s[k]) by {
        forall k | 0 <= k < |s| ensures IsSpace(s[k]) {
          if k < i { assert s[k] == s[..i][k]; } else { assert s[k] == s[j..][k - j]; }
        }
      }
      assert s[0..|s|] == s;
      SkipSpaceUnique(s, 0, |s|);
    }
  }

  /** Every character of an all-whitespace slice is whitespace. */
  lemma AllSpaceAt(s: string, i: nat, j: nat)
    requires i <= j <= |s| && AllSpace(s[i..j])
    ensures forall k :: i <= k < j ==> IsSpace(s[k])
  {
    forall k | i <= k < j ensures IsSpace(s[k]) {
      assert s[i..j][k - i] == s[k];
    }
  }

  /** StripUnique for a slice s[lo..hi] that is whitespace, then the stripped
      s[a..b], then whitespace. */
  lemma StripSlice(s: string, lo: nat, a: nat, b: nat, hi: nat)
    requires lo <= a <= b <= hi <= |s|
    requires AllSpace(s[lo..a]) && AllSpace(s[b..hi])
    requires IsStripped(s[a..b])
    ensures Strip(s[lo..hi]) == s[a..b]
  {
    var inner := s[lo..hi];
    var head, mid, tail := inner[..a - lo], inner[a - lo..b - lo], inner[b - lo..];
    var pre, body, post := s[lo..a], s[a..b], s[b..hi];
    forall k | 0 <= k < a - lo ensures head[k] == pre[k] {
      assert head[k] == inner[k] == s[lo + k] == pre[k];
    }
    forall k | 0 <= k < b - a ensures mid[k] == body[k] {
      assert mid[k] == inner[a - lo + k] == s[a + k] == body[k];
    }
    forall k | 0 <= k < hi - b ensures tail[k] == post[k] {
      assert tail[k] == inner[b - lo + k] == s[b + k] == post[k];
    }
    assert head == pre && mid == body && tail == post;
    StripUnique(inner, a - lo, b - lo);
  }

  /** A string with no whitespace at either end is left as it is. */
  lemma StripStripped(s: string)
    requires IsStripped(s)
    ensures Strip(s) == s
  {
    assert s[..0] == [] && s[|s|..] == [] && s[0..|s|] == s;
    StripUnique(s, 0, |s|);
  }

  /** Stripping twice is stripping once. */
  lemma StripIdempotent(s: string)
    ensures Strip(Strip(s)) == Strip(s)
  {
    StripStripped(Strip(s));
  }

  /** sub occurs in s starting at index i. */
  predicate OccursAt(s: string, sub: string, i: int) {
    0 <= i && i + |sub| <= |s| && s[i..i + |sub|] == sub
  }

  lemma OccursAtChar(s: string, sub: string, i: int, k: nat)
    requires OccursAt(s, sub, i) && k < |sub|
    ensures s[i + k] == sub[k]
  {
    assert s[i + k] == s[i..i + |sub|][k];
  }

  /** An occurrence inside a slice is an occurrence in the whole string. */
  lemma OccursInSlice(s: string, lo: nat, hi: nat, sub: string, k: int)
    requires lo <= hi <= |s| && OccursAt(s[lo..hi], sub, k)
    ensures OccursAt(s, sub, lo + k) && lo + k + |sub| <= hi
  {
    var whole, part := s[lo + k..lo + k + |sub|], s[lo..hi][k..k + |sub|];
    forall x | 0 <= x < |sub| ensures whole[x] == part[x] { }
    assert whole == part;
  }

  /** An occurrence of a concatenation is an occurrence of each part. */
  lemma OccursAtConcat(s: string, a: string, b: string, i: int)
    requires OccursAt(s, a + b, i)
    ensures OccursAt(s, a, i) && OccursAt(s, b, i + |a|)
  {
    var whole := s[i..i + |a| + |b|];
    assert s[i..i + |a|] == whole[..|a|];
    assert s[i + |a|..i + |a| + |b|] == whole[|a|..];
  }

  /** A one-character needle occurs exactly where that character is. */
  lemma OccursAtSingle(s: string, c: char, i: int)
    ensures OccursAt(s, [c], i) <==> 0 <= i < |s| && s[i] == c
  {
    if 0 <= i < |s| && s[i] == c {
      assert s[i..i + 1] == [c];
    }
  }

  /** str.find(sub, start): the lowest index at or after start where sub
      occurs, or -1. */
  function FindFrom(s: string, sub: string, start: nat): (r: int)
    ensures r == -1 || (start <= r && OccursAt(s, sub, r))
    ensures forall k :: start <= k && (r == -1 || k < r) ==> !OccursAt(s, sub, k)
    decreases |s| - start
  {
    if start + |sub| > |s| then -1
    else if s[start..start + |sub|] == sub then start
    else FindFrom(s, sub, start + 1)
  }

  /** The highest index at most k where sub occurs, or -1. */
  function RFindAtOrBefore(s: string, sub: string, k: int): (r: int)
    ensures r == -1 || (0 <= r <= k && OccursAt(s, sub, r))
    ensures forall j :: r < j <= k ==> !OccursAt(s, sub, j)
    decreases k + 1
  {
    if k < 0 then -1
    else if OccursAt(s, sub, k) then k
    else RFindAtOrBefore(s, sub, k - 1)
  }

  /** str.rfind(sub): the highest index where sub occurs, or -1. */
  function RFind(s: string, sub: string): (r: int)
    ensures r == -1 || OccursAt(s, sub, r)
    ensures forall j :: r < j ==> !OccursAt(s, sub, j)
  {
    RFindAtOrBefore(s, sub, |s| - |sub|)
  }

  /** str.startswith(prefix): s is at least as long as prefix and agrees
      with it character by character. */
  predicate StartsWith(s: string, prefix: string)
    ensures StartsWith(s, prefix) <==> |prefix| <= |s| && forall k :: 0 <= k < |prefix| ==> s[k] == prefix[k]
  {
    OccursAt(s, prefix, 0)
  }

  /** str.split(sep) for a one-character separator: the pieces between
      separators, empty pieces included; never an empty list. */
  function Split(s: string, sep: char): (parts: seq<string>)
    ensures |parts| >= 1
    decreases |s|
  {
    if |s| == 0 then [""]
    else
      var rest := Split(s[1..], sep);
      if s[0] == sep then [""] + rest else [[s[0]] + rest[0]] + rest[1..]
  }

  /** sep.join(parts), the inverse of Split. */
  function Join(parts: seq<string>, sep: char): string
    requires |parts| >= 1
  {
    if |parts| == 1 then parts[0] else parts[0] + [sep] + Join(parts[1..], sep)
  }

  /** No piece of a split contains the separator. */
  lemma {:induction false} SplitPiecesAvoidSep(s: string, sep: char)
    ensures forall i :: 0 <= i < |Split(s, sep)| ==> sep !in Split(s, sep)[i]
    decreases |s|
  {
    if |s| > 0 {
      SplitPiecesAvoidSep(s[1..], sep);
    }
  }

  /** Joining the pieces with the separator gives the string back. */
  lemma {:induction false} JoinSplit(s: string, sep: char)
    ensures Join(Split(s, sep), sep) == s
    decreases |s|
  {
    if |s| > 0 {
      var rest := Split(s[1..], sep);
      JoinSplit(s[1..], sep);
      if s[0] == sep {
        assert Split(s, sep)[1..] == rest;
        assert s == [sep] + s[1..];
      } else {
        var parts := Split(s, sep);
        assert parts[0] == [s[0]] + rest[0];
        assert parts[1..] == rest[1..];
        if |rest| == 1 {
          assert s == [s[0]] + rest[0];
        } else {
          assert Join(rest, sep) == rest[0] + [sep] + Join(rest[1..], sep);
          assert s == [s[0]] + s[1..];
        }
      }
    }
  }

  /** A split has more than one piece exactly when the separator occurs. */
  lemma {:induction false} SplitManyIffSep(s: string, sep: char)
    ensures |Split(s, sep)| > 1 <==> sep in s
    decreases |s|
  {
    if |s| > 0 {
      SplitManyIffSep(s[1..], sep);
      assert s == [s[0]] + s[1..];
    }
  }

  /** A string without the separator splits into itself alone. */
  lemma {:induction false} SplitNoSep(s: string, sep: char)
    requires sep !in s
    ensures Split(s, sep) == [s]
    decreases |s|
  {
    if |s| > 0 {
      assert forall k :: 0 <= k < |s| - 1 ==> s[1..][k] == s[k + 1];
      SplitNoSep(s[1..], sep);
      assert [s[0]] + s[1..] == s;
    }
  }

  /** Splitting at the first separator, index i: the first piece is what
      precedes it and the rest is the split of what follows it. */
  lemma {:induction false} SplitAtFirst(s: string, sep: char, i: nat)
    requires i < |s| && s[i] == sep && sep !in s[..i]
    ensures Split(s, sep) == [s[..i]] + Split(s[i + 1..], sep)
    decreases i
  {
    if i > 0 {
      assert s[0] == s[..i][0];
      assert s[1..][..i - 1] == s[1..i];
      assert forall k :: 0 <= k < i - 1 ==> s[1..i][k] == s[..i][k + 1];
      SplitAtFirst(s[1..], sep, i - 1);
      assert s[1..][i - 1 + 1..] == s[i + 1..];
      assert [s[0]] + s[1..i] == s[..i];
    } else {
      assert s[1..] == s[i + 1..];
    }
  }
}
