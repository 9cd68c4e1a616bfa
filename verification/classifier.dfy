/** The line-selection half of `parseOutput`: where the hop lines start,
    which lines are hop lines, and the per-line dispatch to the dialect's
    parser, in input order. */
module Classifier {
  import opened Wrappers
  import opened Text
  import opened Hops
  import opened HopLine

  /** Header marker each dialect looks for. */
  function Marker(d: Dialect): string {
    if d.Windows? then "Tracing route to" else "traceroute to"
  }

  /** Lines skipped after the marker line, and the default start line. */
  function Offset(d: Dialect): nat {
    if d.Windows? then 4 else 1
  }

  /** How many leading lines are searched for the marker. */
  function Window(d: Dialect): nat {
    if d.Windows? then 5 else 3
  }

  function Min(a: nat, b: nat): nat { if a < b then a else b }

  /** First index below `bound` whose line contains `marker`. */
  function MarkerIndex(lines: seq<string>, marker: string, bound: nat, i: nat): (r: Option<nat>)
    requires bound <= |lines|
    ensures r.Some? ==> i <= r.value < bound && Contains(lines[r.value], marker)
    ensures r.Some? ==> forall k :: i <= k < r.value ==> !Contains(lines[k], marker)
    ensures r.None? ==> forall k :: i <= k < bound ==> !Contains(lines[k], marker)
    decreases bound - i
  {
    if i >= bound then None
    else if Contains(lines[i], marker) then Some(i)
    else MarkerIndex(lines, marker, bound, i + 1)
  }

  /** Line `k` is the first line inside the window that holds the marker. */
  predicate FirstMarkerAt(d: Dialect, lines: seq<string>, k: nat) {
    && k < Min(Window(d), |lines|)
    && Contains(lines[k], Marker(d))
    && forall j :: 0 <= j < k ==> !Contains(lines[j], Marker(d))
  }

  /** Index of the first line that may hold a hop. */
  function StartLine(d: Dialect, lines: seq<string>): (r: nat)
    ensures Offset(d) <= r < Offset(d) + Window(d)
    ensures r > Offset(d) ==> r - Offset(d) < |lines| && Contains(lines[r - Offset(d)], Marker(d))
    ensures forall k :: 0 <= k < r - Offset(d) ==> !Contains(lines[k], Marker(d))
    ensures (forall k :: 0 <= k < Min(Window(d), |lines|) ==> !Contains(lines[k], Marker(d))) ==> r == Offset(d)
    ensures |lines| > 0 && Contains(lines[0], Marker(d)) ==> r == Offset(d)
    ensures forall k: nat :: FirstMarkerAt(d, lines, k) ==> r == k + Offset(d)
  {
    match MarkerIndex(lines, Marker(d), Min(Window(d), |lines|), 0)
    case Some(i) => i + Offset(d)
    case None => Offset(d)
  }

  /** A trimmed line the loop hands to a parser: not `empty()`, and starting
      with optional whitespace then a digit. */
  predicate IsHopLine(t: string) {
    !IsEmptyString(t) && LeadingDigits(t).Some?
  }

  /** A raw line the loop keeps: its trimmed form is a hop line. */
  predicate KeptLine(line: string) { IsHopLine(Trim(line)) }

  /** Positions from `i` on whose line satisfies `P`, ascending. */
  function Positions(P: string -> bool, lines: seq<string>, i: nat): (r: seq<nat>)
    requires i <= |lines|
    ensures forall j :: 0 <= j < |r| ==> i <= r[j] < |lines| && P(lines[r[j]])
    ensures forall j :: 0 < j < |r| ==> r[j - 1] < r[j]
    ensures forall k :: i <= k < |lines| && P(lines[k]) ==> k in r
    decreases |lines| - i
  {
    if i == |lines| then []
    else
      var rest := Positions(P, lines, i + 1);
      if P(lines[i]) then
        PositionsCons(P, lines, i, rest);
        [i] + rest
      else rest
  }

  /** Putting a position in front of the positions after it. */
  lemma PositionsCons(P: string -> bool, lines: seq<string>, i: nat, rest: seq<nat>)
    requires i < |lines| && P(lines[i])
    requires forall j :: 0 <= j < |rest| ==> i + 1 <= rest[j] < |lines| && P(lines[rest[j]])
    requires forall j :: 0 < j < |rest| ==> rest[j - 1] < rest[j]
    requires forall k :: i + 1 <= k < |lines| && P(lines[k]) ==> k in rest
    ensures var r := [i] + rest;
            && (forall j :: 0 <= j < |r| ==> i <= r[j] < |lines| && P(lines[r[j]]))
            && (forall j :: 0 < j < |r| ==> r[j - 1] < r[j])
            && (forall k :: i <= k < |lines| && P(lines[k]) ==> k in r)
  {
    var r := [i] + rest;
    assert forall j :: 0 < j < |r| ==> r[j] == rest[j - 1];
  }

  /** The trimmed hop lines of `lines`, in order. */
  function HopLines(lines: seq<string>): (r: seq<string>)
    ensures |r| <= |lines|
    ensures forall k :: 0 <= k < |r| ==> IsHopLine(r[k])
  {
    if lines == [] then []
    else
      var t := Trim(lines[0]);
      (if IsHopLine(t) then [t] else []) + HopLines(lines[1..])
  }

  /** `HopLines` keeps exactly the hop lines, trimmed, in input order: the
      `j`-th entry is the trimmed line at the `j`-th hop-line position. */
  lemma {:induction false} HopLinesFrom(lines: seq<string>, i: nat)
    requires i <= |lines|
    ensures |HopLines(lines[i..])| == |Positions(KeptLine, lines, i)|
    ensures forall j :: 0 <= j < |Positions(KeptLine, lines, i)| ==>
              HopLines(lines[i..])[j] == Trim(lines[Positions(KeptLine, lines, i)[j]])
    decreases |lines| - i
  {
    if i < |lines| {
      HopLinesFrom(lines, i + 1);
      var hs := HopLines(lines[i + 1..]);
      var ps := Positions(KeptLine, lines, i + 1);
      assert lines[i..][0] == lines[i];
      assert lines[i..][1..] == lines[i + 1..];
      if KeptLine(lines[i]) {
        assert HopLines(lines[i..]) == [Trim(lines[i])] + hs;
        assert Positions(KeptLine, lines, i) == [i] + ps;
      } else {
        assert HopLines(lines[i..]) == hs;
        assert Positions(KeptLine, lines, i) == ps;
      }
    }
  }

  /** The whole input: the hop lines, trimmed, one per hop-line position. */
  lemma HopLinesSelect(lines: seq<string>)
    ensures |HopLines(lines)| == |Positions(KeptLine, lines, 0)|
    ensures forall j :: 0 <= j < |HopLines(lines)| ==>
              HopLines(lines)[j] == Trim(lines[Positions(KeptLine, lines, 0)[j]])
  {
    HopLinesFrom(lines, 0);
    assert lines[0..] == lines;
  }

  /** Hop lines start wherever the marker line dictates: with the first
      marker at index `|pre|` inside the window, the body is what follows
      the marker line and the `Offset - 1` lines skipped after it. */
  lemma BodyAfterMarker(d: Dialect, pre: seq<string>, m: string, skip: seq<string>, rest: seq<string>)
    requires |pre| < Window(d)
    requires forall k :: 0 <= k < |pre| ==> !Contains(pre[k], Marker(d))
    requires Contains(m, Marker(d))
    requires |skip| + 1 == Offset(d)
    ensures Body(d, pre + [m] + skip + rest) == rest
  {
    var lines := pre + [m] + skip + rest;
    assert lines[|pre|] == m;
    assert forall k :: 0 <= k < |pre| ==> lines[k] == pre[k];
    assert StartLine(d, lines) == |pre| + Offset(d);
    assert lines[|pre| + Offset(d)..] == rest;
  }

  /** What the loop body does with one raw line: trim it, skip it unless it
      is a hop line, otherwise parse it (the parser may still return null). */
  function LineHop(d: Dialect, line: string): (r: Option<Hop>)
    ensures r.Some? ==> IsHopLine(Trim(line))
    ensures r.Some? ==> r.value.ttl == r.value.hop && r.value.pingTime >= 0 && r.value.ip != "Unknown"
    ensures r.Some? ==> r.value.hop == LeadingNumber(Trim(line)).value
    ensures d.Unix? ==> (r.Some? <==> IsHopLine(Trim(line)))
    ensures d.Windows? ==> (r.Some? <==> IsHopLine(Trim(line)) && !Contains(Trim(line), "Trace complete"))
    ensures IsHopLine(Trim(line)) ==> r == ParseLine(d, Trim(line))
  {
    var t := Trim(line);
    if !IsHopLine(t) then None
    else
      Patterns.PlaceholdersAreNotAddresses();
      ParseLine(d, t)
  }

  /** The loop over `lines` with the per-line step `step`: the hops it
      yields, in input order. */
  function Collect(step: string -> Option<Hop>, lines: seq<string>): (r: seq<Hop>)
    ensures |r| <= |lines|
  {
    if lines == [] then []
    else
      var rest := Collect(step, lines[1..]);
      match step(lines[0])
      case Some(h) => [h] + rest
      case None => rest
  }

  /** Every hop of the loop is a hop the step produced for some line. */
  lemma {:induction false} CollectKeeps(step: string -> Option<Hop>, P: Hop -> bool, lines: seq<string>)
    requires forall l :: step(l).Some? ==> P(step(l).value)
    ensures forall k :: 0 <= k < |Collect(step, lines)| ==> P(Collect(step, lines)[k])
    decreases |lines|
  {
    if lines != [] {
      CollectKeeps(step, P, lines[1..]);
    }
  }

  /** The per-line step the service runs: `LineHop` for the dialect. */
  function Step(d: Dialect): string -> Option<Hop> {
    line => LineHop(d, line)
  }

  /** What every parsed hop satisfies: `ttl` equals the hop number, the
      ping time is not negative, and the IP is never the "Unknown" placeholder. */
  predicate ParsedShape(h: Hop) {
    h.ttl == h.hop && h.pingTime >= 0 && h.ip != "Unknown"
  }

  /** The hops the loop collects from `lines`, before normalisation. */
  function ParseHops(d: Dialect, lines: seq<string>): (r: seq<Hop>)
    ensures |r| <= |lines|
    ensures forall k :: 0 <= k < |r| ==> r[k].ttl == r[k].hop && r[k].pingTime >= 0
    ensures forall k :: 0 <= k < |r| ==> r[k].ip != "Unknown"
  {
    var step := Step(d);
    CollectKeeps(step, ParsedShape, lines);
    Collect(step, lines)
  }

  /** The lines from the start line on; the loop does nothing past the end. */
  function Body(d: Dialect, lines: seq<string>): (r: seq<string>)
    ensures |r| <= |lines| && r == lines[|lines| - |r|..]
    ensures |r| == |lines| - Min(StartLine(d, lines), |lines|)
  {
    var s := StartLine(d, lines);
    if s <= |lines| then lines[s..] else []
  }

  // ---------------------------------------------------------------------
  // Properties of the line loop

  lemma {:induction false} CollectAppend(step: string -> Option<Hop>, a: seq<string>, b: seq<string>)
    ensures Collect(step, a + b) == Collect(step, a) + Collect(step, b)
    decreases |a|
  {
    if a == [] {
      assert a + b == b;
    } else {
      assert (a + b)[0] == a[0];
      assert (a + b)[1..] == a[1..] + b;
      CollectAppend(step, a[1..], b);
    }
  }

  /** The loop is line-local: splitting the input splits the hops. */
  lemma ParseHopsAppend(d: Dialect, a: seq<string>, b: seq<string>)
    ensures ParseHops(d, a + b) == ParseHops(d, a) + ParseHops(d, b)
  {
    CollectAppend(Step(d), a, b);
  }

  /** A step that answers exactly the hop lines, each with its own number,
      makes the loop yield one hop per hop line, numbered like the line. */
  lemma {:induction false} CollectOnePerHopLine(step: string -> Option<Hop>, lines: seq<string>)
    requires forall l :: step(l).Some? <==> IsHopLine(Trim(l))
    requires forall l :: step(l).Some? ==> LeadingNumber(Trim(l)) == Some(step(l).value.hop)
    ensures |Collect(step, lines)| == |HopLines(lines)|
    ensures forall k :: 0 <= k < |HopLines(lines)| ==>
      Collect(step, lines)[k].hop == LeadingNumber(HopLines(lines)[k]).value
    decreases |lines|
  {
    if lines != [] {
      CollectOnePerHopLine(step, lines[1..]);
      var t := Trim(lines[0]);
      if IsHopLine(t) {
        var h := step(lines[0]).value;
        assert LeadingNumber(t) == Some(h.hop);
        assert HopLines(lines) == [t] + HopLines(lines[1..]);
        assert Collect(step, lines) == [h] + Collect(step, lines[1..]);
      } else {
        assert HopLines(lines) == HopLines(lines[1..]);
        assert Collect(step, lines) == Collect(step, lines[1..]);
      }
    }
  }

  /** Unix: every hop line yields exactly one hop, carrying that line's number. */
  lemma UnixOneHopPerLine(lines: seq<string>)
    ensures |ParseHops(Unix, lines)| == |HopLines(lines)|
    ensures forall k :: 0 <= k < |HopLines(lines)| ==>
      ParseHops(Unix, lines)[k].hop == LeadingNumber(HopLines(lines)[k]).value
  {
    var step := Step(Unix);
    assert forall l :: step(l) == LineHop(Unix, l);
    CollectOnePerHopLine(step, lines);
  }

  /** Windows: the hop lines that mention "Trace complete". */
  function CompletionLines(ts: seq<string>): (n: nat)
    ensures n <= |ts|
  {
    if ts == [] then 0
    else (if Contains(ts[0], "Trace complete") then 1 else 0) + CompletionLines(ts[1..])
  }

  /** A step that answers the hop lines other than "Trace complete" makes
      the loop yield one hop per such line. */
  lemma {:induction false} CollectSkipsCompletion(step: string -> Option<Hop>, lines: seq<string>)
    requires forall l :: step(l).Some? <==> IsHopLine(Trim(l)) && !Contains(Trim(l), "Trace complete")
    ensures |Collect(step, lines)| == |HopLines(lines)| - CompletionLines(HopLines(lines))
    decreases |lines|
  {
    if lines != [] {
      CollectSkipsCompletion(step, lines[1..]);
      var t := Trim(lines[0]);
      if IsHopLine(t) {
        var hs := HopLines(lines);
        assert hs == [t] + HopLines(lines[1..]);
        assert hs[0] == t && hs[1..] == HopLines(lines[1..]);
        assert CompletionLines(hs) == (if Contains(t, "Trace complete") then 1 else 0) + CompletionLines(hs[1..]);
      } else {
        assert HopLines(lines) == HopLines(lines[1..]);
      }
    }
  }

  /** Windows: every hop line yields one hop, except the "Trace complete" lines, which yield none. */
  lemma WindowsHopCount(lines: seq<string>)
    ensures |ParseHops(Windows, lines)| == |HopLines(lines)| - CompletionLines(HopLines(lines))
  {
    var step := Step(Windows);
    assert forall l :: step(l) == LineHop(Windows, l);
    CollectSkipsCompletion(step, lines);
  }

  /** The dialect's line parser as a per-line step. */
  function Parser(d: Dialect): string -> Option<Hop> {
    t => ParseLine(d, t)
  }

  /** The hop lines without "Trace complete", in input order. */
  function Uncompleted(ts: seq<string>): (r: seq<string>)
    ensures |r| == |ts| - CompletionLines(ts)
    ensures forall k :: 0 <= k < |r| ==> !Contains(r[k], "Trace complete") && r[k] in ts
  {
    if ts == [] then []
    else (if Contains(ts[0], "Trace complete") then [] else [ts[0]]) + Uncompleted(ts[1..])
  }

  /** The hop lines the dialect's parser answers: all of them on Unix,
      those without "Trace complete" on Windows. */
  function Answered(d: Dialect, ts: seq<string>): seq<string> {
    if d.Windows? then Uncompleted(ts) else ts
  }

  /** A hop line always has a number, so the parser answers it unless it
      is a Windows "Trace complete" line. */
  lemma HopLineAnswered(d: Dialect, t: string)
    requires IsHopLine(t)
    ensures ParseLine(d, t).Some? <==> d.Unix? || !Contains(t, "Trace complete")
  {
    assert LeadingNumber(t).Some?;
  }

  /** The parse of each line of `ts`, in order. */
  function ParseEach(d: Dialect, ts: seq<string>): (hs: seq<Hop>)
    requires forall k :: 0 <= k < |ts| ==> ParseLine(d, ts[k]).Some?
    ensures |hs| == |ts|
    ensures forall k :: 0 <= k < |ts| ==> Some(hs[k]) == ParseLine(d, ts[k])
  {
    seq(|ts|, k requires 0 <= k < |ts| => ParseLine(d, ts[k]).value)
  }

  /** The loop over raw lines is the dialect's parser run over the trimmed
      hop lines: trimming and the hop-line test happen first, in order. */
  lemma {:induction false} CollectHopLines(d: Dialect, lines: seq<string>)
    ensures Collect(Step(d), lines) == Collect(Parser(d), HopLines(lines))
    decreases |lines|
  {
    if lines != [] {
      CollectHopLines(d, lines[1..]);
      var t := Trim(lines[0]);
      var rest := HopLines(lines[1..]);
      assert Step(d)(lines[0]) == LineHop(d, lines[0]);
      if IsHopLine(t) {
        assert HopLines(lines) == [t] + rest;
        assert ([t] + rest)[0] == t && ([t] + rest)[1..] == rest;
        assert Parser(d)(t) == ParseLine(d, t);
      } else {
        assert HopLines(lines) == rest;
      }
    }
  }

  /** A step that answers exactly the lines without "Trace complete"
      yields the same hops from those lines alone. */
  lemma {:induction false} CollectUncompleted(f: string -> Option<Hop>, ts: seq<string>)
    requires forall k :: 0 <= k < |ts| ==> (f(ts[k]).Some? <==> !Contains(ts[k], "Trace complete"))
    ensures Collect(f, ts) == Collect(f, Uncompleted(ts))
    decreases |ts|
  {
    if ts != [] {
      assert forall k :: 0 <= k < |ts| - 1 ==> ts[1..][k] == ts[k + 1];
      CollectUncompleted(f, ts[1..]);
      var u := Uncompleted(ts[1..]);
      if Contains(ts[0], "Trace complete") {
        assert Uncompleted(ts) == u;
        assert Collect(f, ts) == Collect(f, ts[1..]);
      } else {
        var v := [ts[0]] + u;
        assert Uncompleted(ts) == v;
        assert v[0] == ts[0] && v[1..] == u;
        assert Collect(f, ts) == [f(ts[0]).value] + Collect(f, ts[1..]);
        assert Collect(f, v) == [f(ts[0]).value] + Collect(f, u);
      }
    }
  }

  /** When the step answers every line, the loop is a map: one hop per
      line, in order. */
  lemma {:induction false} CollectEvery(f: string -> Option<Hop>, ts: seq<string>)
    requires forall k :: 0 <= k < |ts| ==> f(ts[k]).Some?
    ensures |Collect(f, ts)| == |ts|
    ensures forall k :: 0 <= k < |ts| ==> Collect(f, ts)[k] == f(ts[k]).value
    decreases |ts|
  {
    if ts != [] {
      CollectEvery(f, ts[1..]);
      var r := Collect(f, ts);
      assert r == [f(ts[0]).value] + Collect(f, ts[1..]);
      forall k | 0 < k < |ts|
        ensures r[k] == f(ts[k]).value
      {
        assert r[k] == Collect(f, ts[1..])[k - 1] && ts[1..][k - 1] == ts[k];
      }
    }
  }

  /** The loop yields the dialect's parse of each answered hop line, in
      input order: every hop line on Unix, every hop line without "Trace
      complete" on Windows. */
  lemma ParseHopsAreParses(d: Dialect, lines: seq<string>)
    ensures var ts := Answered(d, HopLines(lines));
            && (forall k :: 0 <= k < |ts| ==> ParseLine(d, ts[k]).Some?)
            && ParseHops(d, lines) == ParseEach(d, ts)
  {
    var hs := HopLines(lines);
    var ts := Answered(d, hs);
    CollectHopLines(d, lines);
    if d.Windows? {
      forall k | 0 <= k < |hs|
        ensures Parser(d)(hs[k]).Some? <==> !Contains(hs[k], "Trace complete")
      {
        HopLineAnswered(d, hs[k]);
      }
      CollectUncompleted(Parser(d), hs);
    }
    forall k | 0 <= k < |ts|
      ensures ParseLine(d, ts[k]).Some? && Parser(d)(ts[k]).Some?
    {
      assert ts[k] in hs;
      HopLineAnswered(d, ts[k]);
    }
    CollectEvery(Parser(d), ts);
  }

  /** Unix: the hops are `parseUnixLine` of each hop line, in order. */
  lemma UnixHopsAreParses(lines: seq<string>)
    ensures var ts := HopLines(lines);
            && (forall k :: 0 <= k < |ts| ==> ParseUnixLine(ts[k]).Some?)
            && ParseHops(Unix, lines) == seq(|ts|, k requires 0 <= k < |ts| => ParseUnixLine(ts[k]).value)
  {
    ParseHopsAreParses(Unix, lines);
  }

  /** Windows: the hops are `parseWindowsLine` of each hop line without
      "Trace complete", in order. */
  lemma WindowsHopsAreParses(lines: seq<string>)
    ensures var ts := Uncompleted(HopLines(lines));
            && (forall k :: 0 <= k < |ts| ==> ParseWindowsLine(ts[k]).Some?)
            && ParseHops(Windows, lines) == seq(|ts|, k requires 0 <= k < |ts| => ParseWindowsLine(ts[k]).value)
  {
    ParseHopsAreParses(Windows, lines);
  }

  /** A line that trims to "0" is dropped, like an empty one (PHP `empty("0")`). */
  lemma ZeroLineDropped(d: Dialect, line: string, rest: seq<string>)
    requires Trim(line) == "0" || Trim(line) == ""
    ensures ParseHops(d, [line] + rest) == ParseHops(d, rest)
  {
    assert ([line] + rest)[1..] == rest;
  }
}
