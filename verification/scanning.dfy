/** How PHP's `preg_*` functions drive a pattern across a subject.

    A pattern is given as a matcher: a function that, for a start
    position `i`, says whether the pattern matches there and what it
    captures. Each matcher in this project returns what PCRE's
    backtracking yields at that start. This module supplies the search
    around it:
    - `FirstMatch` is `preg_match`: the leftmost start that matches;
    - `Scan` is `preg_match_all`: matches left to right, each search
      resuming where the previous match ended;
    - `Strip` is `preg_replace($re, '', $s)`: the same scan, with every
      matched span deleted.
    None of the patterns here can match the empty string, so starts at
    `|s|` never match and are not tried. */
module Scanning {
  import opened Wrappers

  /** One match: where it ends, and the text of its capturing group. */
  datatype Hit = Hit(end: nat, group: string)

  /** A hit that consumes at least one byte and stays inside the subject. */
  predicate Advances(s: string, i: nat, h: Hit) { i < h.end <= |s| }

  /** Every match of `m` on `s` consumes at least one byte and stays inside
      `s`; it holds for every pattern of the service. */
  predicate AlwaysAdvances(m: (string, nat) -> Option<Hit>, s: string) {
    forall k :: 0 <= k < |s| && m(s, k).Some? ==> Advances(s, k, m(s, k).value)
  }

  /** Leftmost start at or after `i` at which `m` matches. */
  function FirstMatch<T>(m: (string, nat) -> Option<T>, s: string, i: nat): (r: Option<nat>)
    ensures r.Some? ==> i <= r.value < |s| && m(s, r.value).Some?
    ensures r.Some? ==> forall k :: i <= k < r.value ==> m(s, k).None?
    ensures r.None? ==> forall k :: i <= k < |s| ==> m(s, k).None?
    decreases |s| - i
  {
    if i >= |s| then None
    else if m(s, i).Some? then Some(i)
    else FirstMatch(m, s, i + 1)
  }

  /** `preg_match`: what the leftmost match captures. */
  function Search<T>(m: (string, nat) -> Option<T>, s: string): (r: Option<T>)
    ensures r.Some? <==> exists k :: 0 <= k < |s| && m(s, k).Some?
    ensures r.Some? ==> exists k :: 0 <= k < |s| && m(s, k) == r
  {
    match FirstMatch(m, s, 0)
    case Some(k) => m(s, k)
    case None => None
  }

  /** `preg_match_all`: start positions of the successive matches from `i`. */
  function Scan(m: (string, nat) -> Option<Hit>, s: string, i: nat): (r: seq<nat>)
    ensures forall j :: 0 <= j < |r| ==> i <= r[j] < |s| && m(s, r[j]).Some?
    ensures forall j :: 0 <= j < |r| - 1 ==> r[j] < m(s, r[j]).value.end <= r[j + 1]
    ensures (forall k :: i <= k < |s| ==> m(s, k).None?) ==> r == []
    decreases |s| - i
  {
    if i >= |s| then []
    else match m(s, i)
      case Some(h) =>
        if Advances(s, i, h) then [i] + Scan(m, s, h.end) else Scan(m, s, i + 1)
      case None => Scan(m, s, i + 1)
  }

  /** `Scan` misses no match: its first start is the leftmost match, each
      next start is the leftmost match from where the previous match ended,
      and nothing matches after the last one. */
  lemma {:induction false} ScanFindsEveryMatch(m: (string, nat) -> Option<Hit>, s: string, i: nat)
    requires AlwaysAdvances(m, s)
    ensures var r := Scan(m, s, i);
            && (r == [] <==> FirstMatch(m, s, i).None?)
            && (r != [] ==> Some(r[0]) == FirstMatch(m, s, i))
            && (r != [] ==> FirstMatch(m, s, m(s, r[|r| - 1]).value.end).None?)
    ensures var r := Scan(m, s, i);
            forall j :: 0 <= j < |r| - 1 ==> Some(r[j + 1]) == FirstMatch(m, s, m(s, r[j]).value.end)
    decreases |s| - i
  {
    if i < |s| {
      match m(s, i)
      case Some(h) =>
        assert Advances(s, i, h);
        ScanFindsEveryMatch(m, s, h.end);
        var rest := Scan(m, s, h.end);
        var r := Scan(m, s, i);
        assert r == [i] + rest;
        assert FirstMatch(m, s, i) == Some(i);
        forall j | 0 <= j < |r| - 1
          ensures Some(r[j + 1]) == FirstMatch(m, s, m(s, r[j]).value.end)
        {
          if j > 0 {
            assert r[j + 1] == rest[j] && r[j] == rest[j - 1];
          }
        }
      case None =>
        ScanFindsEveryMatch(m, s, i + 1);
        assert FirstMatch(m, s, i) == FirstMatch(m, s, i + 1);
    }
  }

  /** The captured groups of `Scan`, in order. */
  function Groups(m: (string, nat) -> Option<Hit>, s: string, starts: seq<nat>): (r: seq<string>)
    requires forall j :: 0 <= j < |starts| ==> m(s, starts[j]).Some?
    ensures |r| == |starts|
    ensures forall j :: 0 <= j < |r| ==> r[j] == m(s, starts[j]).value.group
  {
    if starts == [] then []
    else [m(s, starts[0]).value.group] + Groups(m, s, starts[1..])
  }

  /** `preg_replace($re, '', ...)` applied to `s[i..]`. */
  function Strip(m: (string, nat) -> Option<Hit>, s: string, i: nat): (r: string)
    ensures i <= |s| ==> |r| <= |s| - i
    ensures i <= |s| && (forall k :: i <= k < |s| ==> m(s, k).None?) ==> r == s[i..]
    decreases |s| - i
  {
    if i >= |s| then []
    else match m(s, i)
      case Some(h) =>
        if Advances(s, i, h) then Strip(m, s, h.end) else [s[i]] + Strip(m, s, i + 1)
      case None => [s[i]] + Strip(m, s, i + 1)
  }

  /** `preg_replace` keeps the bytes before the leftmost match, drops the
      match, and carries on from where it ended; with no match it keeps
      everything. */
  lemma {:induction false} StripKeepsGaps(m: (string, nat) -> Option<Hit>, s: string, i: nat)
    requires i <= |s| && AlwaysAdvances(m, s)
    ensures FirstMatch(m, s, i).None? ==> Strip(m, s, i) == s[i..]
    ensures FirstMatch(m, s, i).Some? ==>
              var k := FirstMatch(m, s, i).value;
              Strip(m, s, i) == s[i..k] + Strip(m, s, m(s, k).value.end)
    decreases |s| - i
  {
    if i < |s| && m(s, i).None? {
      StripKeepsGaps(m, s, i + 1);
      assert FirstMatch(m, s, i) == FirstMatch(m, s, i + 1);
      assert Strip(m, s, i) == [s[i]] + Strip(m, s, i + 1);
      match FirstMatch(m, s, i + 1)
      case None =>
        assert [s[i]] + s[i + 1..] == s[i..];
      case Some(k) =>
        KeepOneMore(s, i, k, Strip(m, s, m(s, k).value.end));
    }
  }

  /** A kept byte in front of a kept gap is the gap one byte wider. */
  lemma KeepOneMore(s: string, i: nat, k: nat, rest: string)
    requires i < k <= |s|
    ensures [s[i]] + (s[i + 1..k] + rest) == s[i..k] + rest
  {
    assert [s[i]] + s[i + 1..k] == s[i..k];
  }

  /** A pattern that matches nowhere leaves the subject as it is. */
  lemma StripNothing(m: (string, nat) -> Option<Hit>, s: string)
    ensures (forall k :: 0 <= k < |s| ==> m(s, k).None?) ==> Strip(m, s, 0) == s
  {
    assert s[0..] == s;
  }

  /** Total length of the spans `Scan` reports from `i`. */
  function MatchedLength(m: (string, nat) -> Option<Hit>, s: string, i: nat): nat
    decreases |s| - i
  {
    if i >= |s| then 0
    else match m(s, i)
      case Some(h) =>
        if Advances(s, i, h) then h.end - i + MatchedLength(m, s, h.end)
        else MatchedLength(m, s, i + 1)
      case None => MatchedLength(m, s, i + 1)
  }

  /** `Strip` deletes exactly the spans that the scan matches: nothing more,
      nothing less. */
  lemma {:induction false} StripRemovesMatches(m: (string, nat) -> Option<Hit>, s: string, i: nat)
    requires i <= |s|
    ensures |Strip(m, s, i)| + MatchedLength(m, s, i) == |s| - i
    decreases |s| - i
  {
    if i < |s| {
      match m(s, i)
      case Some(h) =>
        if Advances(s, i, h) {
          StripRemovesMatches(m, s, h.end);
        } else {
          StripRemovesMatches(m, s, i + 1);
        }
      case None =>
        StripRemovesMatches(m, s, i + 1);
    }
  }
}
