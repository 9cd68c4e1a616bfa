/** The address patterns of the hop-line parsers, hand-coded.

    Every regular expression of the hostname/IP cascade is written here as
    a matcher: given a start position it returns what PCRE captures when
    the match begins there, or `None`. The repeated building blocks are
      HN  = `[\w\.-]+(?:\s+[\w\.-]+)*`            a run of host words
      V6  = `[0-9a-fA-F:]+(?:\.\d{1,3}){0,3}`     an IPv6-like token
      V4  = `\d{1,3}\.\d{1,3}\.\d{1,3}\.\d{1,3}`  a dotted quad
    Each matcher follows the greedy parse. Where a pattern continues after
    a greedy part (a closing bracket, `(?!\S)`), every shorter alternative
    PCRE could backtrack to stops just before a byte the greedy parse
    consumed, which is never whitespace nor a bracket, so the greedy parse
    is the only one that can succeed.

    The cascade itself is a list of `ExtractionRule`s tried first-match-wins,
    one list per dialect, in the source's order. */
module Patterns {
  import opened Wrappers
  import opened Text
  import opened Scanning

  /** `[\w\.-]`: a byte of a host word. */
  predicate IsHostChar(c: char) { IsWordChar(c) || c == '.' || c == '-' }

  predicate IsHostOrSpace(c: char) { IsHostChar(c) || IsSpace(c) }

  /** `[0-9a-fA-F:]`. */
  predicate IsHexOrColon(c: char) {
    IsDigit(c) || ('a' <= c <= 'f') || ('A' <= c <= 'F') || c == ':'
  }

  /** `[\d\.]`. */
  predicate IsDigitOrDot(c: char) { IsDigit(c) || c == '.' }

  /** `[\d\.:a-fA-F]`: every byte any address capture can contain. */
  predicate IsAddrChar(c: char) { IsHexOrColon(c) || c == '.' }

  /** A non-empty string of address bytes. */
  predicate IsAddress(t: string) {
    t != [] && forall k :: 0 <= k < |t| ==> IsAddrChar(t[k])
  }

  /** The two placeholders the parsers use for "no address": neither is an address. */
  lemma PlaceholdersAreNotAddresses()
    ensures !IsAddress("Unknown") && !IsAddress("*")
  {
    assert !IsAddrChar("Unknown"[0]);
    assert !IsAddrChar("*"[0]);
  }

  /** Hostname and IP a rule extracts. */
  datatype Extraction = Extraction(hostname: string, ip: string)

  /** `(?!\S)` at position `e`: end of subject or a whitespace byte. */
  predicate NotFollowedByNonSpace(s: string, e: nat) {
    e >= |s| || IsSpace(s[e])
  }

  /** `$` at position `e` (PCRE default): end of subject, or before a final newline. */
  predicate AtSubjectEnd(s: string, e: nat) {
    e == |s| || (e + 1 == |s| && s[e] == '\n')
  }

  // ---------------------------------------------------------------------
  // Address bodies

  /** Greedy parse of `(?:\.\d{1,3}){0,n}` from `q`. */
  function DottedTail(s: string, q: nat, n: nat): (e: nat)
    requires q <= |s|
    ensures q <= e <= |s|
    ensures forall k :: q <= k < e ==> IsDigitOrDot(s[k])
    decreases n
  {
    if n > 0 && q + 1 < |s| && s[q] == '.' && IsDigit(s[q + 1]) then
      var run := SpanEnd(IsDigit, s, q + 1);
      var e := if run - (q + 1) > 3 then q + 4 else run;
      DottedTail(s, e, n - 1)
    else q
  }

  /** Greedy parse of V6 from `p`: where it ends, if it matches at all. */
  function ColonHexEnd(s: string, p: nat): (r: Option<nat>)
    ensures r.Some? ==> p < r.value <= |s| && forall k :: p <= k < r.value ==> IsAddrChar(s[k])
    ensures r.Some? <==> p < |s| && IsHexOrColon(s[p])
  {
    if p < |s| && IsHexOrColon(s[p]) then
      var q := SpanEnd(IsHexOrColon, s, p);
      Some(DottedTail(s, q, 3))
    else None
  }

  /** The three address bodies that appear between brackets. */
  datatype AddrClass =
    | ColonHex        // V6
    | DigitsDots      // [\d\.]+
    | HexDigitsDots   // [\d\.:a-fA-F]+

  /** Greedy parse of an address body from `p`. */
  function AddrEnd(cls: AddrClass, s: string, p: nat): (r: Option<nat>)
    ensures r.Some? ==> p < r.value <= |s| && forall k :: p <= k < r.value ==> IsAddrChar(s[k])
  {
    match cls
    case ColonHex => ColonHexEnd(s, p)
    case DigitsDots =>
      if p < |s| && IsDigitOrDot(s[p]) then Some(SpanEnd(IsDigitOrDot, s, p)) else None
    case HexDigitsDots =>
      if p < |s| && IsAddrChar(s[p]) then Some(SpanEnd(IsAddrChar, s, p)) else None
  }

  /** `\d{1,3}\.` from `p`: a run of one to three digits, then a dot. */
  function OctetDot(s: string, p: nat): (r: Option<nat>)
    ensures r.Some? ==> p + 2 <= r.value <= p + 4 && r.value <= |s|
    ensures r.Some? ==> s[r.value - 1] == '.' && forall k :: p <= k < r.value - 1 ==> IsDigit(s[k])
  {
    if p < |s| && IsDigit(s[p]) then
      var run := SpanEnd(IsDigit, s, p);
      if run - p <= 3 && run < |s| && s[run] == '.' then Some(run + 1) else None
    else None
  }

  /** Greedy parse of V4 from `i`. */
  function DottedQuadEnd(s: string, i: nat): (r: Option<nat>)
    ensures r.Some? ==> i + 7 <= r.value <= |s| && forall k :: i <= k < r.value ==> IsDigitOrDot(s[k])
  {
    match OctetDot(s, i)
    case None => None
    case Some(a) =>
      match OctetDot(s, a)
      case None => None
      case Some(b) =>
        match OctetDot(s, b)
        case None => None
        case Some(c) =>
          if c < |s| && IsDigit(s[c]) then
            var run := SpanEnd(IsDigit, s, c);
            Some(if run - c > 3 then c + 3 else run)
          else None
  }

  // ---------------------------------------------------------------------
  // Host words

  /** End of the HN capture starting at `i` when the H∪S region ends at `j`:
      the region with its trailing whitespace removed. */
  function NameEnd(s: string, i: nat, j: nat): (e: nat)
    requires i < j <= |s| && IsHostChar(s[i])
    requires forall k :: i <= k < j ==> IsHostOrSpace(s[k])
    ensures i < e <= j && IsHostChar(s[e - 1])
    ensures forall k :: e <= k < j ==> IsSpace(s[k])
    decreases j
  {
    assert IsHostOrSpace(s[j - 1]);
    if IsSpace(s[j - 1]) then NameEnd(s, i, j - 1) else j
  }

  /** A hostname capture: host words separated by whitespace, a host byte at each end. */
  predicate IsHostWords(t: string) {
    && t != []
    && IsHostChar(t[0]) && IsHostChar(t[|t| - 1])
    && forall k :: 0 <= k < |t| ==> IsHostOrSpace(t[k])
  }

  lemma HostWordsSlice(s: string, i: nat, e: nat)
    requires i < e <= |s| && IsHostChar(s[i]) && IsHostChar(s[e - 1])
    requires forall k :: i <= k < e ==> IsHostOrSpace(s[k])
    ensures IsHostWords(s[i..e])
  {
    assert forall k :: 0 <= k < e - i ==> s[i..e][k] == s[i + k];
  }

  lemma AddressSlice(s: string, p: nat, q: nat)
    requires p < q <= |s|
    requires forall k :: p <= k < q ==> IsAddrChar(s[k])
    ensures IsAddress(s[p..q])
  {
    assert forall k :: 0 <= k < q - p ==> s[p..q][k] == s[p + k];
  }

  datatype Delim = Square | Round {
    function Open(): char { if Square? then '[' else '(' }
    function Close(): char { if Square? then ']' else ')' }
  }

  /** `(HN)\s+<open>(<body>)<close>` at `i`: a hostname, then an address in brackets. */
  function LabelledAt(s: string, i: nat, delim: Delim, cls: AddrClass): (r: Option<Extraction>)
    ensures r.Some? ==> IsHostWords(r.value.hostname) && IsAddress(r.value.ip)
  {
    if i < |s| && IsHostChar(s[i]) then
      var j := SpanEnd(IsHostOrSpace, s, i);
      if j < |s| && s[j] == delim.Open() && IsSpace(s[j - 1]) then
        var e := NameEnd(s, i, j);
        match AddrEnd(cls, s, j + 1)
        case Some(q) =>
          if q < |s| && s[q] == delim.Close() then
            HostWordsSlice(s, i, e);
            AddressSlice(s, j + 1, q);
            Some(Extraction(s[i..e], s[j + 1..q]))
          else None
        case None => None
      else None
    else None
  }

  /** Where the hostname comes from when a rule captures only an address. */
  datatype NameSource = FixedName(name: string) | AddressAsName

  function NameFor(source: NameSource, ip: string): string {
    match source
    case FixedName(n) => n
    case AddressAsName => ip
  }

  /** `<open>(<body>)<close>` at `i`: an address in brackets, no hostname. */
  function EnclosedAt(s: string, i: nat, delim: Delim, cls: AddrClass, source: NameSource): (r: Option<Extraction>)
    ensures r.Some? ==> IsAddress(r.value.ip) && r.value.hostname == NameFor(source, r.value.ip)
  {
    if i < |s| && s[i] == delim.Open() then
      match AddrEnd(cls, s, i + 1)
      case Some(q) =>
        if q < |s| && s[q] == delim.Close() then
          var ip := s[i + 1..q];
          AddressSlice(s, i + 1, q);
          Some(Extraction(NameFor(source, ip), ip))
        else None
      case None => None
    else None
  }

  /** `\*\s+(HN)\s+\[([\d\.:a-fA-F]+)\]` at `i`. */
  function StarLabelledAt(s: string, i: nat): (r: Option<Extraction>)
    ensures r.Some? ==> IsHostWords(r.value.hostname) && IsAddress(r.value.ip)
  {
    if i < |s| && s[i] == '*' then
      var k := SpanEnd(IsSpace, s, i + 1);
      if k > i + 1 then LabelledAt(s, k, Square, HexDigitsDots) else None
    else None
  }

  /** `\*\s+([\d\.:a-fA-F]+)` at `i`: an asterisk in place of the hostname. */
  function StarAddressAt(s: string, i: nat): (r: Option<Extraction>)
    ensures r.Some? ==> r.value.hostname == "*" && IsAddress(r.value.ip)
  {
    if i < |s| && s[i] == '*' then
      var k := SpanEnd(IsSpace, s, i + 1);
      if k > i + 1 && k < |s| && IsAddrChar(s[k]) then
        var e := SpanEnd(IsAddrChar, s, k);
        AddressSlice(s, k, e);
        Some(Extraction("*", s[k..e]))
      else None
    else None
  }

  /** `(V4)` at `i`, followed by whitespace or the end when `isolated` (`(?!\S)`). */
  function DottedQuadAt(s: string, i: nat, isolated: bool): (r: Option<Extraction>)
    ensures r.Some? ==> IsAddress(r.value.ip) && r.value.hostname == r.value.ip && |r.value.ip| >= 7
    ensures r.Some? ==> i + |r.value.ip| <= |s| && s[i..i + |r.value.ip|] == r.value.ip
  {
    match DottedQuadEnd(s, i)
    case Some(e) =>
      if !isolated || NotFollowedByNonSpace(s, e) then
        assert forall k :: i <= k < e ==> IsAddrChar(s[k]);
        AddressSlice(s, i, e);
        Some(Extraction(s[i..e], s[i..e]))
      else None
    case None => None
  }

  const IPv6HostName := "IPv6-Host"

  /** `(V6)` at `i`, followed by whitespace or the end when `isolated` (`(?!\S)`). */
  function ColonHexAt(s: string, i: nat, isolated: bool): (r: Option<Extraction>)
    ensures r.Some? ==> IsAddress(r.value.ip) && r.value.hostname == IPv6HostName
    ensures !isolated ==> (r.Some? <==> i < |s| && IsHexOrColon(s[i]))
    ensures r.Some? ==> i + |r.value.ip| <= |s| && s[i..i + |r.value.ip|] == r.value.ip
  {
    match ColonHexEnd(s, i)
    case Some(e) =>
      if !isolated || NotFollowedByNonSpace(s, e) then
        AddressSlice(s, i, e);
        Some(Extraction(IPv6HostName, s[i..e]))
      else None
    case None => None
  }

  const UnknownValue := "Unknown"

  /** `(HN)$` at `i`: host words that run to the end of the subject; no address. */
  function TrailingNameAt(s: string, i: nat): (r: Option<Extraction>)
    ensures r.Some? ==> IsHostWords(r.value.hostname) && r.value.ip == UnknownValue
  {
    if i < |s| && IsHostChar(s[i]) then
      var j := SpanEnd(IsHostOrSpace, s, i);
      var e := NameEnd(s, i, j);
      if AtSubjectEnd(s, e) then
        HostWordsSlice(s, i, e);
        Some(Extraction(s[i..e], UnknownValue))
      else None
    else None
  }

  // ---------------------------------------------------------------------
  // The cascade

  /** One pattern of the cascade, with the way it fills hostname and IP. */
  datatype ExtractionRule =
    | Labelled(delim: Delim, cls: AddrClass)
    | Enclosed(delim: Delim, cls: AddrClass, source: NameSource)
    | StarLabelled
    | StarAddress
    | DottedQuad(isolated: bool)
    | ColonHexToken(isolated: bool)
    | TrailingName

  function RuleAt(rule: ExtractionRule, s: string, i: nat): (r: Option<Extraction>)
    ensures r.Some? && !rule.TrailingName? ==> IsAddress(r.value.ip)
    ensures r.Some? && rule.TrailingName? ==> r.value.ip == UnknownValue
  {
    match rule
    case Labelled(delim, cls) => LabelledAt(s, i, delim, cls)
    case Enclosed(delim, cls, source) => EnclosedAt(s, i, delim, cls, source)
    case StarLabelled => StarLabelledAt(s, i)
    case StarAddress => StarAddressAt(s, i)
    case DottedQuad(isolated) => DottedQuadAt(s, i, isolated)
    case ColonHexToken(isolated) => ColonHexAt(s, i, isolated)
    case TrailingName => TrailingNameAt(s, i)
  }

  /** A rule as a matcher over (subject, start). */
  function Matcher(rule: ExtractionRule): (string, nat) -> Option<Extraction> {
    (t: string, k: nat) => RuleAt(rule, t, k)
  }

  /** `preg_match` of one rule: the capture of its leftmost match. */
  function ApplyRule(rule: ExtractionRule, s: string): (r: Option<Extraction>)
    ensures r.Some? && !rule.TrailingName? ==> IsAddress(r.value.ip)
    ensures r.Some? && rule.TrailingName? ==> r.value.ip == UnknownValue
  {
    var m := Matcher(rule);
    assert forall k :: m(s, k) == RuleAt(rule, s, k);
    Search(m, s)
  }

  /** A rule finds something exactly when it matches at some start, and
      what it finds is the capture at the leftmost such start. */
  lemma ApplyRuleIsLeftmost(rule: ExtractionRule, s: string)
    ensures ApplyRule(rule, s).Some? <==> exists k :: 0 <= k < |s| && RuleAt(rule, s, k).Some?
    ensures ApplyRule(rule, s).Some? ==>
      exists k :: 0 <= k < |s| && RuleAt(rule, s, k) == ApplyRule(rule, s)
        && forall j :: 0 <= j < k ==> RuleAt(rule, s, j).None?
  {
    var m := Matcher(rule);
    assert ApplyRule(rule, s) == Search(m, s);
    match FirstMatch(m, s, 0)
    case Some(k) =>
      assert m(s, k) == RuleAt(rule, s, k) == ApplyRule(rule, s);
      forall j | 0 <= j < k
        ensures RuleAt(rule, s, j).None?
      {
        assert m(s, j).None?;
      }
    case None =>
      forall k | 0 <= k < |s|
        ensures RuleAt(rule, s, k).None?
      {
        assert m(s, k).None?;
      }
  }

  /** What each rule of a cascade finds in `s`, in rule order. */
  function Outcomes(rules: seq<ExtractionRule>, s: string): (o: seq<Option<Extraction>>)
    ensures |o| == |rules|
    ensures forall k :: 0 <= k < |rules| ==> o[k] == ApplyRule(rules[k], s)
  {
    seq(|rules|, k requires 0 <= k < |rules| => ApplyRule(rules[k], s))
  }

  /** Index of the first present entry at or after `i`. */
  function FirstSome<T>(xs: seq<Option<T>>, i: nat): (r: Option<nat>)
    ensures r.Some? ==> i <= r.value < |xs| && xs[r.value].Some?
    ensures r.Some? ==> forall k :: i <= k < r.value ==> xs[k].None?
    ensures r.None? ==> forall k :: i <= k < |xs| ==> xs[k].None?
    decreases |xs| - i
  {
    if i >= |xs| then None
    else if xs[i].Some? then Some(i)
    else FirstSome(xs, i + 1)
  }

  /** The `if/elseif` chain: the first rule that matches, with its index. */
  function Cascade(rules: seq<ExtractionRule>, s: string): (r: Option<(nat, Extraction)>)
    ensures r.Some? ==> r.value.0 < |rules| && ApplyRule(rules[r.value.0], s) == Some(r.value.1)
    ensures r.Some? ==> forall k :: 0 <= k < r.value.0 ==> ApplyRule(rules[k], s).None?
    ensures r.None? ==> forall k :: 0 <= k < |rules| ==> ApplyRule(rules[k], s).None?
  {
    var o := Outcomes(rules, s);
    match FirstSome(o, 0)
    case Some(i) => Some((i, o[i].value))
    case None => None
  }

  /** The final `elseif`: the whole residual as hostname, unless it is empty, "0" or "*". */
  function Verbatim(s: string): (x: Extraction)
    ensures x.ip == UnknownValue
    ensures x.hostname == s <==> !IsEmptyString(s) && s != "*"
    ensures x.hostname != s ==> x.hostname == UnknownValue
  {
    if !IsEmptyString(s) && s != "*" then Extraction(s, UnknownValue)
    else Extraction(UnknownValue, UnknownValue)
  }

  /** Hostname and IP for a residual address segment under a dialect's rule list. */
  function Extract(rules: seq<ExtractionRule>, s: string): (x: Extraction)
    ensures x.ip == UnknownValue || IsAddress(x.ip)
    ensures Cascade(rules, s).Some? ==> ApplyRule(rules[Cascade(rules, s).value.0], s) == Some(x)
    ensures Cascade(rules, s).None? ==> x.ip == UnknownValue && (x.hostname == s <==> !IsEmptyString(s) && s != "*")
  {
    match Cascade(rules, s)
    case Some(p) => p.1
    case None => Verbatim(s)
  }

  /** The rules that need a `[`: `hostname [ip]`, `[ip]` and `* hostname [ip]`. */
  predicate NeedsSquareBracket(rule: ExtractionRule) {
    rule.StarLabelled? || (rule.Labelled? && rule.delim == Square) || (rule.Enclosed? && rule.delim == Square)
  }

  /** Without a `[` in the subject, no square-bracket rule matches anywhere. */
  lemma SquareRulesNeedBracket(rule: ExtractionRule, s: string)
    requires '[' !in s
    requires NeedsSquareBracket(rule)
    ensures ApplyRule(rule, s).None?
  {
    ApplyRuleIsLeftmost(rule, s);
    forall k | 0 <= k < |s|
      ensures RuleAt(rule, s, k).None?
    {
      if rule.StarLabelled? && s[k] == '*' {
        var j := SpanEnd(IsSpace, s, k + 1);
        if j < |s| && IsHostChar(s[j]) {
          var e := SpanEnd(IsHostOrSpace, s, j);
          assert e < |s| ==> s[e] != '[';
        }
      } else if rule.Labelled? && k < |s| && IsHostChar(s[k]) {
        var e := SpanEnd(IsHostOrSpace, s, k);
        assert e < |s| ==> s[e] != '[';
      }
    }
  }

  /** The first four rules, common to both cascades. */
  const SharedHead: seq<ExtractionRule> := [
    Labelled(Square, ColonHex),                        // hostname [ipv6]
    Enclosed(Square, ColonHex, FixedName(IPv6HostName)), // [ipv6]
    StarLabelled,                                      // * hostname [ip]
    StarAddress                                        // * ip
  ]

  /** Both cascades begin with the same four rules. */
  lemma CascadesShareHead()
    ensures UnixRules[..4] == SharedHead && WindowsRules[..4] == SharedHead
  {
  }

  /** The cascade takes the fourth rule when the first three find nothing
      and the fourth finds `x`. */
  lemma CascadeTakesFourth(rules: seq<ExtractionRule>, s: string, x: Extraction)
    requires |rules| >= 4
    requires ApplyRule(rules[0], s).None? && ApplyRule(rules[1], s).None? && ApplyRule(rules[2], s).None?
    requires ApplyRule(rules[3], s) == Some(x)
    ensures Extract(rules, s) == x
  {
    forall k | 0 <= k < 3
      ensures ApplyRule(rules[k], s).None?
    {
      if k == 0 {
      } else if k == 1 {
      } else {
        assert k == 2;
      }
    }
    var r := Cascade(rules, s);
    assert r.Some?;
  }

  /** On a residual that starts with `* <address bytes>` and has no `[`,
      the first three rules of either cascade find nothing and the fourth,
      `* ip`, matches at the very start. */
  lemma StarResidualRules(s: string)
    requires '[' !in s
    requires RuleAt(StarAddress, s, 0).Some?
    ensures ApplyRule(Labelled(Square, ColonHex), s).None?
    ensures ApplyRule(Enclosed(Square, ColonHex, FixedName(IPv6HostName)), s).None?
    ensures ApplyRule(StarLabelled, s).None?
    ensures ApplyRule(StarAddress, s) == RuleAt(StarAddress, s, 0)
  {
    assert FirstMatch(Matcher(StarAddress), s, 0) == Some(0);
    SquareRulesNeedBracket(Labelled(Square, ColonHex), s);
    SquareRulesNeedBracket(Enclosed(Square, ColonHex, FixedName(IPv6HostName)), s);
    SquareRulesNeedBracket(StarLabelled, s);
  }

  /** Such a residual is taken by the `* ip` rule under the Unix cascade. */
  lemma StarResidualUnix(s: string)
    requires '[' !in s
    requires RuleAt(StarAddress, s, 0).Some?
    ensures Extract(UnixRules, s) == RuleAt(StarAddress, s, 0).value
  {
    StarResidualRules(s);
    CascadesShareHead();
    var rules := UnixRules;
    assert rules[0] == SharedHead[0] && rules[1] == SharedHead[1];
    assert rules[2] == SharedHead[2] && rules[3] == SharedHead[3];
    CascadeTakesFourth(rules, s, RuleAt(StarAddress, s, 0).value);
  }

  /** Such a residual is taken by the `* ip` rule under the Windows cascade. */
  lemma StarResidualWindows(s: string)
    requires '[' !in s
    requires RuleAt(StarAddress, s, 0).Some?
    ensures Extract(WindowsRules, s) == RuleAt(StarAddress, s, 0).value
  {
    StarResidualRules(s);
    CascadesShareHead();
    var rules := WindowsRules;
    assert rules[0] == SharedHead[0] && rules[1] == SharedHead[1];
    assert rules[2] == SharedHead[2] && rules[3] == SharedHead[3];
    CascadeTakesFourth(rules, s, RuleAt(StarAddress, s, 0).value);
  }

  /** The Windows cascade, in source order. */
  const WindowsRules: seq<ExtractionRule> := SharedHead + [
    Labelled(Square, DigitsDots),                      // hostname [ipv4]
    Enclosed(Square, DigitsDots, AddressAsName),       // [ipv4]
    Labelled(Round, DigitsDots),                       // hostname (ipv4)
    Labelled(Round, ColonHex),                         // hostname (ipv6)
    DottedQuad(true),                                  // bare ipv4
    ColonHexToken(true),                               // bare ipv6
    TrailingName                                       // hostname only
  ]

  /** The Unix cascade, in source order. */
  const UnixRules: seq<ExtractionRule> := SharedHead + [
    Labelled(Round, DigitsDots),                       // hostname (ipv4)
    Labelled(Round, ColonHex),                         // hostname (ipv6)
    Enclosed(Round, DigitsDots, AddressAsName),        // (ipv4)
    Enclosed(Round, ColonHex, FixedName(IPv6HostName)),  // (ipv6)
    Labelled(Square, DigitsDots),                      // hostname [ipv4]
    DottedQuad(false),                                 // bare ipv4
    ColonHexToken(true),                               // bare ipv6
    TrailingName,                                      // hostname only
    ColonHexToken(false)                               // ipv6 anywhere in the residual
  ]
}
