/**
 * The scan `get_test_case` performs with the regular expression
 * `\bTest unit written to \.\/([^\s]+)`: libFuzzer announces the reproducer
 * it saved with this line, and the captured group is the path after `./`.
 */
module CrashMarker {
  import opened Wrappers

  const Marker: string := "Test unit written to ./"

  /** `\w`, on the ASCII text the fuzzer's error stream is decoded to. */
  predicate IsWordChar(c: char) {
    'a' <= c <= 'z' || 'A' <= c <= 'Z' || '0' <= c <= '9' || c == '_'
  }

  /** `\s` of a Python `str` pattern: ASCII and Unicode whitespace. */
  predicate IsSpace(c: char) {
    c == ' ' || '\t' <= c <= '\r' || '\U{1C}' <= c <= '\U{1F}' ||
    c == '\U{85}' || c == '\U{A0}' || c == '\U{1680}' ||
    '\U{2000}' <= c <= '\U{200A}' || c == '\U{2028}' || c == '\U{2029}' ||
    c == '\U{202F}' || c == '\U{205F}' || c == '\U{3000}'
  }

  /** The marker text starts at index `i` of `s`. */
  predicate MarkerAt(s: string, i: nat) {
    i + |Marker| <= |s| && s[i..i + |Marker|] == Marker
  }

  predicate ContainsMarker(s: string) {
    exists i: nat :: i <= |s| && MarkerAt(s, i)
  }

  /**
   * The whole pattern matches at `i`: `\b` holds there (the marker starts with
   * a word character, so the character before must not be one), the marker
   * follows, and at least one non-whitespace character comes after it.
   */
  predicate MatchesAt(s: string, i: nat) {
    MarkerAt(s, i) && i + |Marker| < |s| &&
    (i == 0 || !IsWordChar(s[i - 1])) &&
    !IsSpace(s[i + |Marker|])
  }

  /** The leftmost match at or after `from`, as `re.search` finds it. */
  function FirstMatch(s: string, from: nat): (r: Option<nat>)
    ensures r.Some? ==> from <= r.value && MatchesAt(s, r.value)
    ensures r.Some? ==> forall i: nat :: from <= i < r.value ==> !MatchesAt(s, i)
    ensures r.None? ==> forall i: nat :: from <= i ==> !MatchesAt(s, i)
    decreases |s| - from
  {
    if from + |Marker| >= |s| then None
    else if MatchesAt(s, from) then Some(from)
    else FirstMatch(s, from + 1)
  }

  /** The end of the longest run of non-whitespace starting at `j` (`[^\s]+` is greedy). */
  function RunEnd(s: string, j: nat): (r: nat)
    requires j <= |s|
    ensures j <= r <= |s|
    ensures forall k :: j <= k < r ==> !IsSpace(s[k])
    ensures r < |s| ==> IsSpace(s[r])
    decreases |s| - j
  {
    if j == |s| || IsSpace(s[j]) then j else RunEnd(s, j + 1)
  }

  /**
   * The match at `i` captures `x`: `x` follows the marker and is ended by
   * whitespace or the end of the text, so `[^\s]+` takes no more and no less.
   */
  predicate Captures(s: string, i: nat, x: string) {
    var j := i + |Marker|;
    j + |x| <= |s| && s[j..j + |x|] == x && (j + |x| == |s| || IsSpace(s[j + |x|]))
  }

  /**
   * Group 1 of the first match: the reproducer path as libFuzzer wrote it,
   * relative to the directory the fuzzer ran in. `None` when nothing matches.
   */
  function TestCasePath(s: string): (p: Option<string>)
    ensures p.None? <==> forall i: nat :: !MatchesAt(s, i)
    ensures p.Some? ==> p.value != [] && forall k :: 0 <= k < |p.value| ==> !IsSpace(p.value[k])
    ensures p.Some? ==> exists i: nat ::
      MatchesAt(s, i) && (forall h: nat :: h < i ==> !MatchesAt(s, h)) && Captures(s, i, p.value)
  {
    match FirstMatch(s, 0)
    case None => None
    case Some(i) =>
      var j := i + |Marker|;
      var x := s[j..RunEnd(s, j)];
      assert Captures(s, i, x);
      Some(x)
  }

  /** The marker never overlaps an earlier copy of itself: only its last character is a '/'. */
  lemma NoOverlappingMarker(s: string, pre: nat, i: nat)
    requires MarkerAt(s, pre) && i < pre < i + |Marker|
    ensures !MarkerAt(s, i)
  {
    var k := i + |Marker| - 1;
    assert s[k] == Marker[k - pre] by { assert s[pre..pre + |Marker|][k - pre] == s[k]; }
    assert forall m :: 0 <= m < |Marker| - 1 ==> Marker[m] != '/';
    assert s[i..i + |Marker|][|Marker| - 1] == s[k];
  }

  /** Before a marker preceded by marker-free text, nothing matches. */
  lemma NoEarlierMatch(s: string, n: nat)
    requires MarkerAt(s, n) && !ContainsMarker(s[..n])
    ensures forall i: nat :: i < n ==> !MatchesAt(s, i)
  {
    forall i: nat | i < n ensures !MatchesAt(s, i) {
      if i + |Marker| <= n {
        assert s[..n][i..i + |Marker|] == s[i..i + |Marker|];
        assert !MarkerAt(s[..n], i);
      } else {
        NoOverlappingMarker(s, n, i);
      }
    }
  }

  /** The leftmost match is the one with no match before it. */
  lemma FirstMatchAt(s: string, n: nat)
    requires MatchesAt(s, n) && forall i: nat :: i < n ==> !MatchesAt(s, i)
    ensures FirstMatch(s, 0) == Some(n)
  {
  }

  /** A run of non-whitespace ended by whitespace or the end of the text is what `[^\s]+` takes. */
  lemma RunEndAt(s: string, j: nat, e: nat)
    requires j <= e <= |s|
    requires forall k :: j <= k < e ==> !IsSpace(s[k])
    requires e < |s| ==> IsSpace(s[e])
    ensures RunEnd(s, j) == e
  {
  }

  /** The announcement itself matches where it is written. */
  lemma MatchesAtAnnouncement(pre: string, x: string, post: string)
    requires pre == [] || !IsWordChar(pre[|pre| - 1])
    requires x != [] && !IsSpace(x[0])
    ensures MatchesAt(pre + Marker + x + post, |pre|)
  {
    var s := pre + Marker + x + post;
    var n := |pre|;
    assert s[n..n + |Marker|] == Marker;
    assert s[n + |Marker|] == x[0];
    if n > 0 { assert s[n - 1] == pre[n - 1]; }
  }

  /** The path of an announcement, followed by whitespace or the end, is the run `[^\s]+` takes. */
  lemma AnnouncedRun(pre: string, x: string, post: string)
    requires forall k :: 0 <= k < |x| ==> !IsSpace(x[k])
    requires post == [] || IsSpace(post[0])
    ensures var s := pre + Marker + x + post;
            var j := |pre| + |Marker|;
            RunEnd(s, j) == j + |x| && s[j..j + |x|] == x
  {
    var s := pre + Marker + x + post;
    var j := |pre| + |Marker|;
    var e := j + |x|;
    forall k | j <= k < e ensures !IsSpace(s[k]) { assert s[k] == x[k - j]; }
    if e < |s| { assert s[e] == post[0]; }
    RunEndAt(s, j, e);
    assert s[j..e] == x;
  }

  /**
   * The first announcement that matches decides: whatever markers come
   * before it (glued to a word, or followed by whitespace), a well-formed
   * `Test unit written to ./x` followed by whitespace or the end yields exactly `x`.
   */
  lemma {:induction false} FirstAnnouncementWins(pre: string, x: string, post: string)
    requires forall i: nat :: i < |pre| ==> !MatchesAt(pre + Marker + x + post, i)
    requires pre == [] || !IsWordChar(pre[|pre| - 1])
    requires x != [] && forall k :: 0 <= k < |x| ==> !IsSpace(x[k])
    requires post == [] || IsSpace(post[0])
    ensures TestCasePath(pre + Marker + x + post) == Some(x)
  {
    var s := pre + Marker + x + post;
    MatchesAtAnnouncement(pre, x, post);
    FirstMatchAt(s, |pre|);
    AnnouncedRun(pre, x, post);
  }

  /**
   * A well-formed announcement `Test unit written to ./x`, preceded by text
   * without the marker and followed by whitespace or the end, yields exactly `x`.
   */
  lemma {:induction false} MarkerRoundTrip(pre: string, x: string, post: string)
    requires !ContainsMarker(pre)
    requires pre == [] || !IsWordChar(pre[|pre| - 1])
    requires x != [] && forall k :: 0 <= k < |x| ==> !IsSpace(x[k])
    requires post == [] || IsSpace(post[0])
    ensures TestCasePath(pre + Marker + x + post) == Some(x)
  {
    var s := pre + Marker + x + post;
    var n := |pre|;
    assert MarkerAt(s, n) by { assert s[n..n + |Marker|] == Marker; }
    assert s[..n] == pre;
    NoEarlierMatch(s, n);
    FirstAnnouncementWins(pre, x, post);
  }

  /** Text without the marker never yields a path. */
  lemma NoMarkerNoPath(s: string)
    requires !ContainsMarker(s)
    ensures TestCasePath(s) == None
  {
  }
}
