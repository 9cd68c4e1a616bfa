/** Concrete lines and what the model makes of them. */
module Cases {
  import opened Wrappers
  import opened Text
  import opened Patterns
  import opened HopLine
  import opened Hops
  import opened Classifier

  const StarResidual := "* dc1.example.com (10.0.0.1)"

  /** The `* ip` rule on "* " followed by address bytes and then a byte
      that is not one: it captures exactly those address bytes. */
  lemma StarAddressOnPieces(ip: string, tail: string)
    requires ip != [] && forall k :: 0 <= k < |ip| ==> IsAddrChar(ip[k])
    requires tail != [] && !IsAddrChar(tail[0])
    ensures RuleAt(StarAddress, "* " + ip + tail, 0) == Some(Extraction("*", ip))
  {
    var s := "* " + ip + tail;
    var e := 2 + |ip|;
    assert s[0] == '*' && s[1] == ' ' && s[2] == ip[0];
    assert forall k :: 2 <= k < e ==> s[k] == ip[k - 2];
    assert s[e] == tail[0];
    assert SpanEnd(IsSpace, s, 1) == 2;
    assert SpanEnd(IsAddrChar, s, 2) == e;
    assert s[2..e] == ip;
  }

  /** The residual, cut where the `* ip` rule stops. */
  lemma NamedRouterPieces()
    ensures "* " + "dc1.e" + "xample.com (10.0.0.1)" == StarResidual
  {
  }

  /** The `* ip` rule on a residual whose first probe timed out but whose
      router has a name: `[\d\.:a-fA-F]+` stops at the first byte that is
      not a hex digit, so it captures "dc1.e" from "dc1.example.com". */
  lemma StarRuleOnNamedRouter()
    ensures RuleAt(StarAddress, StarResidual, 0) == Some(Extraction("*", "dc1.e"))
  {
    NamedRouterPieces();
    StarAddressOnPieces("dc1.e", "xample.com (10.0.0.1)");
  }

  /** So both cascades report that residual with IP "dc1.e", and the
      sanity check turns the "*" hostname into "Unknown": the router's name
      and its real address 10.0.0.1 are both lost. */
  lemma NamedRouterAfterTimeoutLosesAddress()
    ensures Extract(UnixRules, StarResidual) == Extraction("*", "dc1.e")
    ensures Extract(WindowsRules, StarResidual) == Extraction("*", "dc1.e")
    ensures Sanitize("*") == UnknownValue
  {
    StarRuleOnNamedRouter();
    assert '[' !in StarResidual;
    StarResidualUnix(StarResidual);
    StarResidualWindows(StarResidual);
  }

  const UnixTimeoutLine := " 5  * * *"

  lemma UnixTimeoutLineShape()
    ensures LeadingNumber(UnixTimeoutLine) == Some(5)
    ensures UnixFullTimeout(UnixTimeoutLine)
  {
    var s := " 5  * * *";
    assert s == UnixTimeoutLine;
    assert SpanEnd(IsSpace, s, 0) == 1;
    assert SpanEnd(IsDigit, s, 1) == 2;
    assert s[1..2] == "5";
    assert DigitsValue("5") == 5;
    assert SpanEnd(IsSpace, s, 2) == 4;
    assert SpanEnd(IsSpace, s, 5) == 6;
    assert SpanEnd(IsSpace, s, 7) == 8;
  }

  /** A Unix hop with three unanswered probes. */
  lemma UnixTimeoutExample()
    ensures ParseUnixLine(UnixTimeoutLine) == Some(Hop(5, 5, "Timeout", "*", 0))
  {
    UnixTimeoutLineShape();
  }

  const WindowsTimeoutLine := "3  *  *  *  Request timed out."

  /** The Windows timeout line carries hop number 3. */
  lemma WindowsTimeoutNumber()
    ensures LeadingNumber(WindowsTimeoutLine) == Some(3)
  {
    var s := "3  *  *  *  Request timed out.";
    assert s == WindowsTimeoutLine;
    assert SpanEnd(IsSpace, s, 0) == 0;
    assert SpanEnd(IsDigit, s, 0) == 1;
    assert s[0..1] == "3";
    assert DigitsValue("3") == 3;
  }

  /** The Windows timeout line is not the completion line. */
  lemma WindowsTimeoutNotComplete()
    ensures !Contains(WindowsTimeoutLine, "Trace complete")
  {
    var s := "3  *  *  *  Request timed out.";
    assert s == WindowsTimeoutLine;
    assert 'T' !in s;
    forall i: nat | i + 14 <= |s|
      ensures !OccursAt(s, "Trace complete", i)
    {
      assert s[i..][0] == s[i];
    }
  }

  /** The Windows timeout line reports every probe timed out. */
  lemma WindowsTimeoutIsFull()
    ensures WindowsFullTimeout(WindowsTimeoutLine)
  {
    var s := "3  *  *  *  Request timed out.";
    assert s == WindowsTimeoutLine;
    assert OccursAt(s, "Request timed out", 12);
  }

  /** A Windows hop whose probes all timed out. */
  lemma WindowsTimeoutExample()
    ensures ParseWindowsLine(WindowsTimeoutLine) == Some(Hop(3, 3, "Timeout", "*", 0))
  {
    WindowsTimeoutNumber();
    WindowsTimeoutNotComplete();
    WindowsTimeoutIsFull();
  }

  /** `tracert` prints a blank line before "Tracing route to", then a line
      "over a maximum of N hops:" and another blank line, so hop 1 sits at
      index 4. The marker is found at index 1 and the body starts at index
      5: the hop-1 line is never parsed, and normalisation then puts a
      synthetic local hop 1 (ping time 0) in its place. */
  lemma TracertHop1LineSkipped(lines: seq<string>)
    requires |lines| > 5 && lines[0] == ""
    requires Contains(lines[1], "Tracing route to")
    ensures Body(Windows, lines) == lines[5..]
  {
    assert !Contains(lines[0], Marker(Windows));
    assert FirstMarkerAt(Windows, lines, 1);
  }
}
