/** The two per-line hop parsers, `parseWindowsLine` and `parseUnixLine`.

    Both take one trimmed output line. They read the hop number, detect a
    hop that timed out completely, average the RTT tokens, strip the hop
    number and the RTT tokens to leave a residual address segment, run the
    dialect's extraction cascade over it, replace implausible hostnames by
    "Unknown", and when no IP was found search the whole line for one. */
module HopLine {
  import opened Wrappers
  import opened Text
  import opened Scanning
  import opened Patterns
  import opened Rtt
  import opened Hops
  import Captures

  /** `^\s*(\d+)`: start and end of the leading hop number. */
  function LeadingDigits(line: string): (r: Option<(nat, nat)>)
    ensures r.Some? ==> r.value.0 < r.value.1 <= |line| && IsDigit(line[r.value.0])
    ensures r.Some? ==> forall k :: 0 <= k < r.value.0 ==> IsSpace(line[k])
    ensures r.Some? ==> AllDigits(line[r.value.0..r.value.1])
    ensures r.Some? ==> r.value.1 == |line| || !IsDigit(line[r.value.1])
    ensures forall a: nat :: a < |line| && IsDigit(line[a]) && (forall k :: 0 <= k < a ==> IsSpace(line[k]))
              ==> r.Some? && r.value.0 == a
  {
    var k := SpanEnd(IsSpace, line, 0);
    if k < |line| && IsDigit(line[k]) then
      var e := SpanEnd(IsDigit, line, k);
      assert forall j :: 0 <= j < e - k ==> line[k..e][j] == line[k + j];
      Some((k, e))
    else None
  }

  /** The hop number: `(int)` of the leading digits. */
  function LeadingNumber(line: string): Option<nat> {
    match LeadingDigits(line)
    case Some(p) => Some(DigitsValue(line[p.0..p.1]))
    case None => None
  }

  /** `line` starts with whitespace up to `a`, the digit run `a..b` and the
      whitespace run `b..n`: what `^\s*\d+\s+` matches, ending at `n`. */
  predicate HopPrefixAt(line: string, a: nat, b: nat, n: nat) {
    && MaximalRun(IsDigit, line, a, b)
    && (forall k :: 0 <= k < a ==> IsSpace(line[k]))
    && MaximalRun(IsSpace, line, b, n)
  }

  /** `preg_replace('/^\s*\d+\s+/', '', $line)`: drops the hop number and the
      whitespace after it; a number not followed by whitespace is kept. */
  function DropHopNumber(line: string): (r: string)
    ensures |r| <= |line| && r == line[|line| - |r|..]
    ensures forall a: nat, b: nat, n: nat :: HopPrefixAt(line, a, b, n) ==> r == line[n..]
    ensures r != line ==>
              && LeadingDigits(line).Some?
              && HopPrefixAt(line, LeadingDigits(line).value.0, LeadingDigits(line).value.1, |line| - |r|)
  {
    HopPrefixDetermined(line);
    match LeadingDigits(line)
    case Some(p) =>
      if p.1 < |line| && IsSpace(line[p.1]) then line[SpanEnd(IsSpace, line, p.1)..] else line
    case None => line
  }

  /** There is at most one hop-number prefix: the leading digits and the
      whitespace run after them. */
  lemma HopPrefixDetermined(line: string)
    ensures forall a: nat, b: nat, n: nat :: HopPrefixAt(line, a, b, n) ==>
              LeadingDigits(line) == Some((a, b)) && SpanEnd(IsSpace, line, b) == n
  {
    forall a: nat, b: nat, n: nat | HopPrefixAt(line, a, b, n)
      ensures LeadingDigits(line) == Some((a, b)) && SpanEnd(IsSpace, line, b) == n
    {
      SpanEndUnique(IsDigit, line, a, b);
      SpanEndUnique(IsSpace, line, b, n);
    }
  }

  /** Windows: no probe answered. The text "Request timed out", or an
      asterisk with no `\d+\s*ms` anywhere in the line. */
  predicate WindowsFullTimeout(line: string) {
    Contains(line, "Request timed out")
      || (Contains(line, "*") && Search(DigitsMsAt, line).None?)
  }

  /** A Windows RTT token starts wherever `\d+\s*ms` matches, and one
      starting with `<` is followed by such a match. */
  lemma RttTokenIffDigitsMs(line: string)
    ensures (exists k :: 0 <= k < |line| && DigitsMsAt(line, k).Some?)
              <==> (exists k :: 0 <= k < |line| && WindowsRttAt(line, k).Some?)
  {
    if exists k :: 0 <= k < |line| && DigitsMsAt(line, k).Some? {
      var k :| 0 <= k < |line| && DigitsMsAt(line, k).Some?;
      assert WindowsRttAt(line, k).Some?;
    }
    if exists k :: 0 <= k < |line| && WindowsRttAt(line, k).Some? {
      var k :| 0 <= k < |line| && WindowsRttAt(line, k).Some?;
      if !IsDigit(line[k]) {
        assert DigitsMsAt(line, k + 1).Some?;
      }
    }
  }

  /** When the line has an asterisk and no "Request timed out", the hop
      counts as timed out exactly when it yields no RTT sample at all. */
  lemma AsteriskTimeoutIffNoSamples(line: string)
    requires Contains(line, "*") && !Contains(line, "Request timed out")
    ensures WindowsFullTimeout(line) <==> WindowsSamples(line) == []
  {
    ScanFindsEveryMatch(WindowsRttAt, line, 0);
    RttTokenIffDigitsMs(line);
    assert |WindowsSamples(line)| == |Scan(WindowsRttAt, line, 0)|;
  }

  /** `\s+\*` repeated `n` times from `p`. */
  predicate StarsAfter(s: string, p: nat, n: nat)
    requires p <= |s|
    decreases n
  {
    if n == 0 then true
    else
      var k := SpanEnd(IsSpace, s, p);
      k > p && k < |s| && s[k] == '*' && StarsAfter(s, k + 1, n - 1)
  }

  /** Unix: no probe answered, `^\s*\d+\s+\*\s+\*\s+\*`. */
  predicate UnixFullTimeout(line: string) {
    match LeadingDigits(line)
    case Some(p) => StarsAfter(line, p.1, 3)
    case None => false
  }

  /** A Unix line with a hop number and three asterisks, each behind
      whitespace, is a complete timeout: the hop number is the digit run
      `a..b`, and the asterisks sit at `p`, `q` and `t`. */
  lemma UnixFullTimeoutAt(line: string, a: nat, b: nat, p: nat, q: nat, t: nat)
    requires MaximalRun(IsDigit, line, a, b) && forall k :: 0 <= k < a ==> IsSpace(line[k])
    requires b < p && p + 1 < q && q + 1 < t && t < |line|
    requires line[p] == '*' && line[q] == '*' && line[t] == '*'
    requires forall k :: b <= k < p ==> IsSpace(line[k])
    requires forall k :: p < k < q ==> IsSpace(line[k])
    requires forall k :: q < k < t ==> IsSpace(line[k])
    ensures UnixFullTimeout(line)
  {
    LeadingDigitsAt(line, a, b);
    ThreeStarsAt(line, b, p, q, t);
  }

  /** Whitespace up to `a` and the maximal digit run `a..b` are the hop number. */
  lemma LeadingDigitsAt(line: string, a: nat, b: nat)
    requires MaximalRun(IsDigit, line, a, b) && forall k :: 0 <= k < a ==> IsSpace(line[k])
    ensures LeadingDigits(line) == Some((a, b))
  {
    SpanEndUnique(IsDigit, line, a, b);
  }

  /** `\s+\*\s+\*\s+\*` from `b`, with the asterisks at `p`, `q` and `t`. */
  lemma ThreeStarsAt(line: string, b: nat, p: nat, q: nat, t: nat)
    requires b < p && p + 1 < q && q + 1 < t && t < |line|
    requires line[p] == '*' && line[q] == '*' && line[t] == '*'
    requires forall k :: b <= k < p ==> IsSpace(line[k])
    requires forall k :: p < k < q ==> IsSpace(line[k])
    requires forall k :: q < k < t ==> IsSpace(line[k])
    ensures StarsAfter(line, b, 3)
  {
    assert StarsAfter(line, t + 1, 0);
    StarAfterSpaces(line, q + 1, t, 1);
    StarAfterSpaces(line, p + 1, q, 2);
    StarAfterSpaces(line, b, p, 3);
  }

  /** One more `\s+\*` in front of `n - 1` of them: whitespace from `p` up to
      an asterisk at `k`. */
  lemma StarAfterSpaces(s: string, p: nat, k: nat, n: nat)
    requires p < k < |s| && n > 0 && s[k] == '*'
    requires forall j :: p <= j < k ==> IsSpace(s[j])
    requires StarsAfter(s, k + 1, n - 1)
    ensures StarsAfter(s, p, n)
  {
    SpanEndUnique(IsSpace, s, p, k);
  }

  /** `^\d+$`: digits only (PCRE's `$` also allows one final newline). */
  predicate IsDigitString(h: string) {
    (h != [] && AllDigits(h))
      || (|h| >= 2 && h[|h| - 1] == '\n' && AllDigits(h[..|h| - 1]))
  }

  /** A hostname the service rejects: digits only, or at most two bytes. */
  predicate Implausible(h: string) { IsDigitString(h) || |h| <= 2 }

  /** The two fixed hostnames the parsers produce are plausible. */
  lemma FixedNamesPlausible()
    ensures !Implausible(UnknownValue) && !Implausible(TimeoutName)
  {
    assert !IsDigit(UnknownValue[0]) && UnknownValue[6] != '\n';
    assert !IsDigit(TimeoutName[0]) && TimeoutName[6] != '\n';
  }

  function Sanitize(h: string): (r: string)
    ensures !Implausible(r)
    ensures r == UnknownValue || r == h
    ensures r == h <==> !Implausible(h) || h == UnknownValue
  {
    FixedNamesPlausible();
    if Implausible(h) then UnknownValue else h
  }

  /** The IP search over the whole line: a dotted quad, else an
      IPv6-like token, else "*" if the line has an asterisk. */
  function FallbackIp(line: string): (ip: string)
    ensures ip == UnknownValue || ip == NoReplyIp || IsAddress(ip)
    ensures IsAddress(ip) ==> Contains(line, ip)
    ensures ApplyRule(DottedQuad(false), line).Some? ==> ip == ApplyRule(DottedQuad(false), line).value.ip
    ensures ip == NoReplyIp ==> Contains(line, "*") && ApplyRule(ColonHexToken(false), line).None?
    ensures ip == UnknownValue ==> !Contains(line, "*") && ApplyRule(ColonHexToken(false), line).None?
  {
    PlaceholdersAreNotAddresses();
    match ApplyRule(DottedQuad(false), line)
    case Some(x) =>
      CaptureOccurs(DottedQuad(false), line);
      x.ip
    case None =>
      match ApplyRule(ColonHexToken(false), line)
      case Some(x) =>
        CaptureOccurs(ColonHexToken(false), line);
        x.ip
      case None =>
        if Contains(line, "*") then NoReplyIp else UnknownValue
  }

  /** A bare address rule captures a piece of the subject it ran over. */
  lemma CaptureOccurs(rule: ExtractionRule, s: string)
    requires rule.DottedQuad? || rule.ColonHexToken?
    requires ApplyRule(rule, s).Some?
    ensures Contains(s, ApplyRule(rule, s).value.ip)
  {
    var k := FirstMatch(Matcher(rule), s, 0).value;
    assert ApplyRule(rule, s) == RuleAt(rule, s, k);
    CaptureAtOccurs(rule, s, k);
  }

  lemma CaptureAtOccurs(rule: ExtractionRule, s: string, k: nat)
    requires rule.DottedQuad? || rule.ColonHexToken?
    requires RuleAt(rule, s, k).Some?
    ensures Contains(s, RuleAt(rule, s, k).value.ip)
  {
    var ip := RuleAt(rule, s, k).value.ip;
    assert s[k..k + |ip|] == ip;
    SliceContained(s, k, ip);
  }

  function ResolveIp(ip: string, line: string): string {
    if ip == UnknownValue then FallbackIp(line) else ip
  }

  /** The line with the hop number and the Windows RTT tokens removed, trimmed. */
  function WindowsResidual(line: string): (r: string)
    ensures |r| <= |line|
    ensures r != [] ==> !IsTrimChar(r[0]) && !IsTrimChar(r[|r| - 1])
  {
    var t := DropHopNumber(line);
    var u := Strip(WindowsRttStripAt, t, 0);
    assert |u| <= |t| <= |line|;
    Trim(u)
  }

  /** The line with the hop number and the Unix RTT tokens removed, trimmed. */
  function UnixResidual(line: string): (r: string)
    ensures |r| <= |line|
    ensures r != [] ==> !IsTrimChar(r[0]) && !IsTrimChar(r[|r| - 1])
  {
    var t := DropHopNumber(line);
    var u := Strip(UnixRttStripAt, t, 0);
    assert |u| <= |t| <= |line|;
    Trim(u)
  }

  /** With no RTT token left after the hop number, the residual is the rest
      of the line, trimmed. */
  lemma ResidualWithoutTokens(line: string)
    ensures (forall k :: 0 <= k < |DropHopNumber(line)| ==> WindowsRttStripAt(DropHopNumber(line), k).None?)
              ==> WindowsResidual(line) == Trim(DropHopNumber(line))
    ensures (forall k :: 0 <= k < |DropHopNumber(line)| ==> UnixRttStripAt(DropHopNumber(line), k).None?)
              ==> UnixResidual(line) == Trim(DropHopNumber(line))
  {
    var t := DropHopNumber(line);
    StripNothing(WindowsRttStripAt, t);
    StripNothing(UnixRttStripAt, t);
  }

  /** The residual keeps what lies before the first RTT token, drops the
      token with its trailing whitespace, and goes on after it. */
  lemma WindowsResidualKeepsGaps(line: string)
    requires FirstMatch(WindowsRttStripAt, DropHopNumber(line), 0).Some?
    ensures var t := DropHopNumber(line);
            var k := FirstMatch(WindowsRttStripAt, t, 0).value;
            WindowsResidual(line) == Trim(t[..k] + Strip(WindowsRttStripAt, t, WindowsRttStripAt(t, k).value.end))
  {
    var t := DropHopNumber(line);
    StripKeepsGaps(WindowsRttStripAt, t, 0);
    assert t[0..FirstMatch(WindowsRttStripAt, t, 0).value] == t[..FirstMatch(WindowsRttStripAt, t, 0).value];
  }

  /** A line that passed the hop-number filter always has an address
      somewhere: its own hop number is an IPv6-like token. So the fallback
      never ends on "*" or "Unknown". */
  lemma FallbackFindsAddress(line: string)
    requires LeadingDigits(line).Some?
    ensures IsAddress(FallbackIp(line))
  {
    var k := LeadingDigits(line).value.0;
    assert RuleAt(ColonHexToken(false), line, k).Some?;
    ApplyRuleIsLeftmost(ColonHexToken(false), line);
    match ApplyRule(DottedQuad(false), line)
    case Some(x) =>
    case None =>
  }

  /** A dotted quad anywhere in the line beats every IPv6-like token: the
      fallback then reports the leftmost dotted quad. */
  lemma FallbackPrefersDottedQuad(line: string, i: nat, a: nat, b: nat, c: nat, e: nat)
    requires Captures.DottedQuadShape(line, i, a, b, c, e)
    ensures ApplyRule(DottedQuad(false), line).Some?
    ensures FallbackIp(line) == ApplyRule(DottedQuad(false), line).value.ip
    ensures |FallbackIp(line)| >= 7
  {
    Captures.DottedQuadAtFinds(line, i, a, b, c, e, false);
    assert RuleAt(DottedQuad(false), line, i).Some?;
    ApplyRuleIsLeftmost(DottedQuad(false), line);
  }

  /** The hop built from a successfully parsed, non-timeout line. */
  function Assemble(n: nat, x: Extraction, line: string, ping: int): (h: Hop)
    requires LeadingDigits(line).Some?
    requires x.ip == UnknownValue || IsAddress(x.ip)
    ensures h.hop == n && h.ttl == n && h.pingTime == ping
    ensures IsAddress(h.ip) && h.ip != NoReplyIp
    ensures x.ip != UnknownValue ==> h.ip == x.ip
    ensures x.ip == UnknownValue ==> h.ip == FallbackIp(line)
    ensures h.hostname == Sanitize(x.hostname)
  {
    FallbackFindsAddress(line);
    PlaceholdersAreNotAddresses();
    Hop(n, n, Sanitize(x.hostname), ResolveIp(x.ip, line), ping)
  }

  /** `parseWindowsLine`. */
  function ParseWindowsLine(line: string): (r: Option<Hop>)
    ensures r.None? <==> Contains(line, "Trace complete") || LeadingNumber(line).None?
    ensures r.Some? ==> r.value.hop == r.value.ttl == LeadingNumber(line).value
    ensures r.Some? ==> (r.value.ip == NoReplyIp <==> WindowsFullTimeout(line))
    ensures r.Some? && WindowsFullTimeout(line) ==> r.value == TimeoutHop(r.value.hop)
    ensures r.Some? ==> r.value.ip == NoReplyIp || IsAddress(r.value.ip)
    ensures r.Some? ==> r.value.pingTime >= 0
    ensures r.Some? && !WindowsFullTimeout(line) ==> r.value.pingTime == PingTime(AsReals(WindowsSamples(line)))
    ensures r.Some? ==> !Implausible(r.value.hostname)
    ensures r.Some? && !WindowsFullTimeout(line) ==>
              var x := Extract(WindowsRules, WindowsResidual(line));
              && r.value.hostname == Sanitize(x.hostname)
              && r.value.ip == (if x.ip == UnknownValue then FallbackIp(line) else x.ip)
  {
    if Contains(line, "Trace complete") then None
    else match LeadingNumber(line)
      case None => None
      case Some(n) =>
        if WindowsFullTimeout(line) then FixedNamesPlausible(); Some(TimeoutHop(n))
        else
          var samples := AsReals(WindowsSamples(line));
          var x := Extract(WindowsRules, WindowsResidual(line));
          PingTimeNonNegative(samples);
          Some(Assemble(n, x, line, PingTime(samples)))
  }

  /** `parseUnixLine`. */
  function ParseUnixLine(line: string): (r: Option<Hop>)
    ensures r.None? <==> LeadingNumber(line).None?
    ensures r.Some? ==> r.value.hop == r.value.ttl == LeadingNumber(line).value
    ensures r.Some? ==> (r.value.ip == NoReplyIp <==> UnixFullTimeout(line))
    ensures r.Some? && UnixFullTimeout(line) ==> r.value == TimeoutHop(r.value.hop)
    ensures r.Some? ==> r.value.ip == NoReplyIp || IsAddress(r.value.ip)
    ensures r.Some? ==> r.value.pingTime >= 0
    ensures r.Some? && !UnixFullTimeout(line) ==> r.value.pingTime == PingTime(UnixSamples(line))
    ensures r.Some? ==> !Implausible(r.value.hostname)
    ensures r.Some? && !UnixFullTimeout(line) ==>
              var x := Extract(UnixRules, UnixResidual(line));
              && r.value.hostname == Sanitize(x.hostname)
              && r.value.ip == (if x.ip == UnknownValue then FallbackIp(line) else x.ip)
  {
    match LeadingNumber(line)
    case None => None
    case Some(n) =>
      if UnixFullTimeout(line) then FixedNamesPlausible(); Some(TimeoutHop(n))
      else
        var x := Extract(UnixRules, UnixResidual(line));
        var samples := UnixSamples(line);
        PingTimeNonNegative(samples);
        Some(Assemble(n, x, line, PingTime(samples)))
  }

  function ParseLine(d: Dialect, line: string): Option<Hop> {
    match d
    case Windows => ParseWindowsLine(line)
    case Unix => ParseUnixLine(line)
  }

  // ---------------------------------------------------------------------
  // Properties of the parsers

  /** Windows `pingTime` is the integer mean of the samples, rounded half
      up: `(2*sum + n) div (2*n)`, and 0 when the line has no RTT token. */
  lemma WindowsPingTimeFormula(line: string)
    requires LeadingNumber(line).Some? && !Contains(line, "Trace complete")
    requires !WindowsFullTimeout(line)
    ensures var xs := WindowsSamples(line);
            ParseWindowsLine(line).value.pingTime
              == (if xs == [] then 0 else (2 * SumNat(xs) + |xs|) / (2 * |xs|))
  {
    WholeSamplesMean(WindowsSamples(line));
  }

  /** Windows `pingTime` lies between any bounds of the samples. */
  lemma WindowsPingTimeBetween(line: string, lo: nat, hi: nat)
    requires LeadingNumber(line).Some? && !Contains(line, "Trace complete")
    requires !WindowsFullTimeout(line)
    requires WindowsSamples(line) != []
    requires forall k :: 0 <= k < |WindowsSamples(line)| ==> lo <= WindowsSamples(line)[k] <= hi
    ensures lo <= ParseWindowsLine(line).value.pingTime <= hi
  {
    WholeSamplesPingTimeBetween(WindowsSamples(line), lo, hi);
  }

  /** The asterisk the `* ip` rule puts in the hostname never survives the
      sanity check. */
  lemma StarHostnameDiscarded(s: string, i: nat)
    requires RuleAt(StarAddress, s, i).Some?
    ensures Sanitize(RuleAt(StarAddress, s, i).value.hostname) == UnknownValue
  {
  }

  /** A dotted quad used as hostname survives the sanity check: it has dots
      and at least seven bytes. */
  lemma DottedQuadHostnameKept(s: string, i: nat, isolated: bool)
    requires RuleAt(DottedQuad(isolated), s, i).Some?
    ensures var h := RuleAt(DottedQuad(isolated), s, i).value.hostname;
            Sanitize(h) == h
  {
    var h := RuleAt(DottedQuad(isolated), s, i).value.hostname;
    var e := DottedQuadEnd(s, i).value;
    var a := OctetDot(s, i).value;
    assert h == s[i..e];
    assert h[a - 1 - i] == '.';
    assert !IsDigit(h[a - 1 - i]);
  }
}
