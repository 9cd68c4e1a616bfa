/** What each address pattern captures on a subject of the shape it is
    written for. Each lemma fixes the pieces of a match by position in an
    arbitrary subject `s` (hostname words from `i` to `e`, whitespace, a
    bracket at `j`, address bytes up to the closing bracket at `q`, ...)
    and states the exact extraction the matcher returns at `i`. */
module Captures {
  import opened Wrappers
  import opened Text
  import opened Patterns

  /** The bytes each address body accepts. */
  predicate InClass(cls: AddrClass, c: char) {
    match cls
    case ColonHex => IsHexOrColon(c)
    case DigitsDots => IsDigitOrDot(c)
    case HexDigitsDots => IsAddrChar(c)
  }

  /** `s[i..e]` is a hostname capture. */
  lemma HostWordsAt(s: string, i: nat, e: nat)
    requires i <= e <= |s| && IsHostWords(s[i..e])
    ensures i < e && IsHostChar(s[i]) && IsHostChar(s[e - 1])
    ensures forall k :: i <= k < e ==> IsHostOrSpace(s[k])
  {
    assert forall k :: i <= k < e ==> s[k] == s[i..e][k - i];
  }

  /** Trailing whitespace after the last host byte `e - 1` is what `NameEnd` drops. */
  lemma {:induction false} NameEndAt(s: string, i: nat, e: nat, j: nat)
    requires i < e <= j <= |s| && IsHostChar(s[i])
    requires forall k :: i <= k < j ==> IsHostOrSpace(s[k])
    requires IsHostChar(s[e - 1]) && forall k :: e <= k < j ==> IsSpace(s[k])
    ensures NameEnd(s, i, j) == e
    decreases j
  {
    if j > e {
      NameEndAt(s, i, e, j - 1);
    }
  }

  /** An address body of class `cls` from `p` up to a byte that is no
      address byte ends exactly there. */
  lemma AddrEndAt(cls: AddrClass, s: string, p: nat, q: nat)
    requires p < q < |s| && !IsAddrChar(s[q])
    requires forall k :: p <= k < q ==> InClass(cls, s[k])
    ensures AddrEnd(cls, s, p) == Some(q)
  {
    match cls
    case ColonHex => SpanEndUnique(IsHexOrColon, s, p, q);
    case DigitsDots => SpanEndUnique(IsDigitOrDot, s, p, q);
    case HexDigitsDots => SpanEndUnique(IsAddrChar, s, p, q);
  }

  /** `hostname [ip]` / `hostname (ip)`: host words `s[i..e]`, whitespace up
      to the opening bracket at `j`, an address body up to the closing
      bracket at `q` — the capture is exactly (`s[i..e]`, `s[j+1..q]`). */
  lemma LabelledAtFinds(s: string, i: nat, e: nat, j: nat, q: nat, delim: Delim, cls: AddrClass)
    requires i <= e < j && j + 1 < q < |s|
    requires IsHostWords(s[i..e])
    requires forall k :: e <= k < j ==> IsSpace(s[k])
    requires s[j] == delim.Open() && s[q] == delim.Close()
    requires forall k :: j + 1 <= k < q ==> InClass(cls, s[k])
    ensures LabelledAt(s, i, delim, cls) == Some(Extraction(s[i..e], s[j + 1..q]))
  {
    LabelledSteps(s, i, e, j, q, delim, cls);
    LabelledAtUnfolds(s, i, e, j, q, delim, cls);
  }

  /** The `hostname [ip]` shape fixes each step of `LabelledAt`: where the
      host/space region, the name and the address body end. */
  lemma LabelledSteps(s: string, i: nat, e: nat, j: nat, q: nat, delim: Delim, cls: AddrClass)
    requires i <= e < j && j + 1 < q < |s|
    requires IsHostWords(s[i..e])
    requires forall k :: e <= k < j ==> IsSpace(s[k])
    requires s[j] == delim.Open() && s[q] == delim.Close()
    requires forall k :: j + 1 <= k < q ==> InClass(cls, s[k])
    ensures i < e && IsHostChar(s[i]) && IsSpace(s[j - 1])
    ensures SpanEnd(IsHostOrSpace, s, i) == j && NameEnd(s, i, j) == e
    ensures AddrEnd(cls, s, j + 1) == Some(q)
  {
    HostWordsAt(s, i, e);
    assert !IsHostOrSpace(s[j]) && IsSpace(s[j - 1]);
    SpanEndUnique(IsHostOrSpace, s, i, j);
    NameEndAt(s, i, e, j);
    AddrEndAt(cls, s, j + 1, q);
  }

  /** `LabelledAt` read through its three steps: the host/space region ends
      at the opening bracket `j`, the name ends at `e`, the address body at
      the closing bracket `q`. */
  lemma {:induction false} LabelledAtUnfolds(s: string, i: nat, e: nat, j: nat, q: nat, delim: Delim, cls: AddrClass)
    requires i < e <= j < q < |s| && IsHostChar(s[i])
    requires SpanEnd(IsHostOrSpace, s, i) == j && s[j] == delim.Open() && IsSpace(s[j - 1])
    requires NameEnd(s, i, j) == e
    requires AddrEnd(cls, s, j + 1) == Some(q) && s[q] == delim.Close()
    ensures LabelledAt(s, i, delim, cls) == Some(Extraction(s[i..e], s[j + 1..q]))
  {
    match cls
    case ColonHex =>
    case DigitsDots =>
    case HexDigitsDots =>
  }

  /** The same, on a subject assembled from its pieces. */
  lemma LabelledOnPieces(pre: string, hn: string, ws: string, ip: string, tail: string, delim: Delim, cls: AddrClass)
    requires IsHostWords(hn)
    requires ws != [] && forall k :: 0 <= k < |ws| ==> IsSpace(ws[k])
    requires ip != [] && forall k :: 0 <= k < |ip| ==> InClass(cls, ip[k])
    ensures LabelledAt(pre + hn + ws + [delim.Open()] + ip + [delim.Close()] + tail, |pre|, delim, cls)
              == Some(Extraction(hn, ip))
  {
    var s := pre + hn + ws + [delim.Open()] + ip + [delim.Close()] + tail;
    var i := |pre|;
    var e := i + |hn|;
    var j := e + |ws|;
    var q := j + 1 + |ip|;
    assert s[i..e] == hn;
    assert forall k :: e <= k < j ==> s[k] == ws[k - e];
    assert s[j] == delim.Open() && s[q] == delim.Close();
    assert forall k :: j + 1 <= k < q ==> s[k] == ip[k - j - 1];
    assert s[j + 1..q] == ip;
    LabelledAtFinds(s, i, e, j, q, delim, cls);
  }

  /** `[ip]` / `(ip)`: an opening bracket at `i`, an address body up to the
      closing bracket at `q`; the hostname is the rule's fixed name or the
      address itself. */
  lemma EnclosedAtFinds(s: string, i: nat, q: nat, delim: Delim, cls: AddrClass, source: NameSource)
    requires i + 1 < q < |s|
    requires s[i] == delim.Open() && s[q] == delim.Close()
    requires forall k :: i + 1 <= k < q ==> InClass(cls, s[k])
    ensures EnclosedAt(s, i, delim, cls, source) == Some(Extraction(NameFor(source, s[i + 1..q]), s[i + 1..q]))
  {
    AddrEndAt(cls, s, i + 1, q);
  }

  /** `* hostname [ip]`: an asterisk at `i`, whitespace up to `k`, then the
      `hostname [ip]` shape from `k`. */
  lemma StarLabelledAtFinds(s: string, i: nat, k: nat, e: nat, j: nat, q: nat)
    requires i + 1 < k <= e < j && j + 1 < q < |s|
    requires s[i] == '*' && forall p :: i + 1 <= p < k ==> IsSpace(s[p])
    requires IsHostWords(s[k..e])
    requires forall p :: e <= p < j ==> IsSpace(s[p])
    requires s[j] == '[' && s[q] == ']'
    requires forall p :: j + 1 <= p < q ==> IsAddrChar(s[p])
    ensures StarLabelledAt(s, i) == Some(Extraction(s[k..e], s[j + 1..q]))
  {
    SpanEndUnique(IsSpace, s, i + 1, k);
    StarLabelledAtUnfolds(s, i, k);
    LabelledAtFinds(s, k, e, j, q, Square, HexDigitsDots);
  }

  /** After the asterisk and its whitespace, `* hostname [ip]` is `hostname [ip]`. */
  lemma StarLabelledAtUnfolds(s: string, i: nat, k: nat)
    requires i + 1 < k <= |s| && s[i] == '*' && SpanEnd(IsSpace, s, i + 1) == k
    ensures StarLabelledAt(s, i) == LabelledAt(s, k, Square, HexDigitsDots)
  {
  }

  /** `* ip`: an asterisk at `i`, whitespace up to `k`, then the longest run
      of address bytes from `k` to `e`; the hostname is "*". */
  lemma StarAddressAtFinds(s: string, i: nat, k: nat, e: nat)
    requires i + 1 < k < e <= |s|
    requires s[i] == '*' && forall p :: i + 1 <= p < k ==> IsSpace(s[p])
    requires MaximalRun(IsAddrChar, s, k, e)
    ensures StarAddressAt(s, i) == Some(Extraction("*", s[k..e]))
  {
    SpanEndUnique(IsSpace, s, i + 1, k);
    SpanEndUnique(IsAddrChar, s, k, e);
  }

  /** One to three digits from `p`, then a dot at `d`. */
  lemma OctetDotAt(s: string, p: nat, d: nat)
    requires p < d < |s| && d - p <= 3 && s[d] == '.'
    requires forall k :: p <= k < d ==> IsDigit(s[k])
    ensures OctetDot(s, p) == Some(d + 1)
  {
    SpanEndUnique(IsDigit, s, p, d);
  }

  /** `s[i..e]` is a dotted quad with its dots at `a`, `b` and `c`: four
      runs of one to three digits, the last not followed by a digit. */
  predicate DottedQuadShape(s: string, i: nat, a: nat, b: nat, c: nat, e: nat) {
    && i < a < b < c < e <= |s|
    && a - i <= 3 && b - a - 1 <= 3 && c - b - 1 <= 3 && e - c - 1 <= 3
    && a - i >= 1 && b - a - 1 >= 1 && c - b - 1 >= 1 && e - c - 1 >= 1
    && s[a] == '.' && s[b] == '.' && s[c] == '.'
    && (forall k :: i <= k < a ==> IsDigit(s[k]))
    && (forall k :: a < k < b ==> IsDigit(s[k]))
    && (forall k :: b < k < c ==> IsDigit(s[k]))
    && MaximalRun(IsDigit, s, c + 1, e)
  }

  /** A bare dotted quad is captured whole, as hostname and as IP; the
      isolated form also needs whitespace or the end after it. */
  lemma DottedQuadAtFinds(s: string, i: nat, a: nat, b: nat, c: nat, e: nat, isolated: bool)
    requires DottedQuadShape(s, i, a, b, c, e)
    ensures DottedQuadAt(s, i, isolated)
              == if !isolated || NotFollowedByNonSpace(s, e) then Some(Extraction(s[i..e], s[i..e])) else None
  {
    DottedQuadEndAt(s, i, a, b, c, e);
  }

  /** The greedy parse of V4 on that shape ends at `e`. */
  lemma DottedQuadEndAt(s: string, i: nat, a: nat, b: nat, c: nat, e: nat)
    requires DottedQuadShape(s, i, a, b, c, e)
    ensures DottedQuadEnd(s, i) == Some(e)
  {
    OctetDotAt(s, i, a);
    OctetDotAt(s, a + 1, b);
    OctetDotAt(s, b + 1, c);
    SpanEndUnique(IsDigit, s, c + 1, e);
    DottedQuadEndOfSteps(s, i, a + 1, b + 1, c + 1, e);
  }

  /** V4 read through its steps: three `\d{1,3}\.` and a final digit run. */
  lemma DottedQuadEndOfSteps(s: string, i: nat, a: nat, b: nat, c: nat, e: nat)
    requires OctetDot(s, i) == Some(a) && OctetDot(s, a) == Some(b) && OctetDot(s, b) == Some(c)
    requires c < |s| && IsDigit(s[c]) && SpanEnd(IsDigit, s, c) == e && e - c <= 3
    ensures DottedQuadEnd(s, i) == Some(e)
  {
  }

  /** A bare IPv6-like token without a dotted tail: the longest run of hex
      digits and colons from `i`, followed by a byte that is no address byte
      or by the end. It is captured whole, with hostname "IPv6-Host". */
  lemma ColonHexAtFinds(s: string, i: nat, e: nat, isolated: bool)
    requires i < e <= |s|
    requires forall k :: i <= k < e ==> IsHexOrColon(s[k])
    requires e == |s| || !IsAddrChar(s[e])
    ensures ColonHexAt(s, i, isolated)
              == if !isolated || NotFollowedByNonSpace(s, e) then Some(Extraction(IPv6HostName, s[i..e])) else None
  {
    SpanEndUnique(IsHexOrColon, s, i, e);
    assert ColonHexEnd(s, i) == Some(e);
  }

  /** `hostname$`: host words from `i` that end the subject, or end it but
      for one final newline, are captured whole, with no IP. */
  lemma TrailingNameAtFinds(s: string, i: nat, e: nat)
    requires i <= e <= |s| && IsHostWords(s[i..e])
    requires AtSubjectEnd(s, e)
    ensures TrailingNameAt(s, i) == Some(Extraction(s[i..e], UnknownValue))
  {
    HostWordsAt(s, i, e);
    SpanEndUnique(IsHostOrSpace, s, i, |s|);
    NameEndAt(s, i, e, |s|);
  }

  /** The same, on a subject that ends with the host words. */
  lemma TrailingNameOnPieces(pre: string, hn: string)
    requires IsHostWords(hn)
    ensures TrailingNameAt(pre + hn, |pre|) == Some(Extraction(hn, UnknownValue))
  {
    var s := pre + hn;
    assert s[|pre|..|s|] == hn;
    TrailingNameAtFinds(s, |pre|, |s|);
  }
}
