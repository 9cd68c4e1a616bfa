/** The PHP string primitives the service relies on, over byte strings
    (one `char` per byte): the PCRE character classes of the C locale,
    `trim`/`rtrim`, `strpos(...) !== false`, `empty()` on strings, the
    `(int)` cast of a digit string and `%d` formatting. */
module Text {

  const VerticalTab: char := 11 as char
  const FormFeed: char := 12 as char

  /** PCRE `\d`. */
  predicate IsDigit(c: char) { '0' <= c <= '9' }

  /** PCRE `\s` (C locale): space, tab, newline, vertical tab, form feed, carriage return. */
  predicate IsSpace(c: char) {
    c == ' ' || c == '\t' || c == '\n' || c == VerticalTab || c == FormFeed || c == '\r'
  }

  /** PCRE `\w` (C locale). */
  predicate IsWordChar(c: char) {
    ('a' <= c <= 'z') || ('A' <= c <= 'Z') || IsDigit(c) || c == '_'
  }

  /** The bytes PHP's `trim` and `rtrim` strip by default: " \t\n\r\0\x0B".
      Unlike `\s`, this set has NUL and no form feed. */
  predicate IsTrimChar(c: char) {
    c == ' ' || c == '\t' || c == '\n' || c == '\r' || c == '\0' || c == VerticalTab
  }

  /** PHP `empty()` on a string: true for "" and for "0". */
  predicate IsEmptyString(s: string) { s == "" || s == "0" }

  predicate AllDigits(s: string) { forall k :: 0 <= k < |s| ==> IsDigit(s[k]) }

  /** End of the maximal run of `P`-characters starting at `i`. */
  function SpanEnd(P: char -> bool, s: string, i: nat): (e: nat)
    requires i <= |s|
    ensures i <= e <= |s|
    ensures forall k :: i <= k < e ==> P(s[k])
    ensures e == |s| || !P(s[e])
    decreases |s| - i
  {
    if i == |s| || !P(s[i]) then i else SpanEnd(P, s, i + 1)
  }

  /** `s[a..b]` is a non-empty run of `P`-characters that cannot be extended
      to the right: what a greedy `P+` consumes from `a`. */
  predicate MaximalRun(P: char -> bool, s: string, a: nat, b: nat) {
    a < b <= |s| && (forall k :: a <= k < b ==> P(s[k])) && (b == |s| || !P(s[b]))
  }

  /** A run of `P`-characters from `i` that stops at the end or before a
      non-`P` byte is the one `SpanEnd` finds. */
  lemma SpanEndUnique(P: char -> bool, s: string, i: nat, e: nat)
    requires i <= e <= |s|
    requires forall k :: i <= k < e ==> P(s[k])
    requires e == |s| || !P(s[e])
    ensures SpanEnd(P, s, i) == e
  {
  }

  /** Number of leading bytes `trim` removes. */
  function TrimStartLen(s: string): (a: nat)
    ensures a <= |s|
    ensures forall k :: 0 <= k < a ==> IsTrimChar(s[k])
    ensures a == |s| || !IsTrimChar(s[a])
  {
    SpanEnd(IsTrimChar, s, 0)
  }

  /** Position after the last byte `rtrim` keeps, looking no further left than `lo`. */
  function TrimEndPos(s: string, lo: nat): (b: nat)
    requires lo <= |s|
    ensures lo <= b <= |s|
    ensures forall k :: b <= k < |s| ==> IsTrimChar(s[k])
    ensures b == lo || !IsTrimChar(s[b - 1])
    decreases |s| - lo
  {
    if |s| == lo then lo
    else if IsTrimChar(s[|s| - 1]) then TrimEndPos(s[..|s| - 1], lo)
    else |s|
  }

  /** `s` is `r` preceded by `a` trim bytes and followed only by trim bytes. */
  ghost predicate PaddedBy(s: string, r: string, a: nat) {
    && a + |r| <= |s|
    && s[a..a + |r|] == r
    && (forall k :: 0 <= k < a ==> IsTrimChar(s[k]))
    && (forall k :: a + |r| <= k < |s| ==> IsTrimChar(s[k]))
  }

  /** PHP `trim($s)`. */
  function Trim(s: string): (r: string)
    ensures PaddedBy(s, r, TrimStartLen(s))
    ensures r != [] ==> !IsTrimChar(r[0]) && !IsTrimChar(r[|r| - 1])
  {
    var a := TrimStartLen(s);
    var b := TrimEndPos(s, a);
    assert s[a..a + |s[a..b]|] == s[a..b];
    s[a..b]
  }

  /** PHP `rtrim($s)`. */
  function RTrim(s: string): (r: string)
    ensures r <= s
    ensures forall k :: |r| <= k < |s| ==> IsTrimChar(s[k])
    ensures r != [] ==> !IsTrimChar(r[|r| - 1])
  {
    s[..TrimEndPos(s, 0)]
  }

  /** Trimming an already trimmed string changes nothing. */
  lemma TrimIdempotent(s: string)
    ensures Trim(Trim(s)) == Trim(s)
  {
    var r := Trim(s);
    if r != [] {
      assert TrimStartLen(r) == 0;
    }
  }

  /** `t` occurs in `s` at position `i`. */
  predicate OccursAt(s: string, t: string, i: nat) {
    i <= |s| && t <= s[i..]
  }

  /** Any slice of `s` occurs in `s`. */
  lemma SliceOccurs(s: string, i: nat, n: nat)
    requires i + n <= |s|
    ensures OccursAt(s, s[i..i + n], i)
  {
    assert s[i..][..n] == s[i..i + n];
  }

  /** PHP `strpos($s, $t) !== false`. */
  function Contains(s: string, t: string): (b: bool)
    ensures b <==> exists i: nat :: OccursAt(s, t, i)
    decreases |s|
  {
    if t <= s then assert OccursAt(s, t, 0); true
    else if s == [] then false
    else
      var b := Contains(s[1..], t);
      OccursShift(s, t);
      b
  }

  /** A string found at a position of `s` is contained in `s`. */
  lemma SliceContained(s: string, k: nat, t: string)
    requires k + |t| <= |s| && s[k..k + |t|] == t
    ensures Contains(s, t)
  {
    SliceOccurs(s, k, |t|);
    assert OccursAt(s, t, k);
  }

  /** An occurrence in `s[1..]` is an occurrence in `s` one further on, and
      when `t` is not a prefix of `s` every occurrence in `s` is one of those. */
  lemma OccursShift(s: string, t: string)
    requires s != [] && !(t <= s)
    ensures (exists i: nat :: OccursAt(s, t, i)) <==> (exists i: nat :: OccursAt(s[1..], t, i))
  {
    forall i: nat
      ensures OccursAt(s, t, i + 1) <==> OccursAt(s[1..], t, i)
    {
      if i + 1 <= |s| {
        assert s[i + 1..] == s[1..][i..];
      }
    }
    if exists i: nat :: OccursAt(s, t, i) {
      var i: nat :| OccursAt(s, t, i);
      assert i > 0;
      assert OccursAt(s[1..], t, i - 1);
    }
    if exists i: nat :: OccursAt(s[1..], t, i) {
      var i: nat :| OccursAt(s[1..], t, i);
      assert OccursAt(s, t, i + 1);
    }
  }

  /** Value of one decimal digit (0 for any other byte). */
  function DigitValue(c: char): nat {
    if IsDigit(c) then (c as int) - ('0' as int) else 0
  }

  /** PHP `(int)` of a string of decimal digits, most significant first. */
  function DigitsValue(s: string): nat
    decreases |s|
  {
    if s == [] then 0 else 10 * DigitsValue(s[..|s| - 1]) + DigitValue(s[|s| - 1])
  }

  function DigitChar(d: nat): (c: char)
    requires d < 10
    ensures IsDigit(c) && DigitValue(c) == d
  {
    (('0' as int) + d) as char
  }

  /** Decimal digits of a natural number, no leading zeros. */
  function NatToDecimal(n: nat): (s: string)
    ensures s != [] && AllDigits(s)
    decreases n
  {
    if n < 10 then [DigitChar(n)] else NatToDecimal(n / 10) + [DigitChar(n % 10)]
  }

  /** PHP `sprintf('%d', $n)`. */
  function IntToString(n: int): (s: string)
    ensures s != []
    ensures n >= 0 ==> AllDigits(s)
    ensures n < 0 ==> s[0] == '-' && s[1..] != [] && AllDigits(s[1..])
  {
    if n < 0 then "-" + NatToDecimal(-n) else NatToDecimal(n)
  }

  /** Reads back an optionally signed decimal. */
  function ParseInt(s: string): int {
    if s != [] && s[0] == '-' then -(DigitsValue(s[1..]) as int) else DigitsValue(s)
  }

  lemma {:induction false} NatToDecimalRoundTrip(n: nat)
    ensures DigitsValue(NatToDecimal(n)) == n
    decreases n
  {
    if n >= 10 {
      NatToDecimalRoundTrip(n / 10);
      var s := NatToDecimal(n);
      assert s[..|s| - 1] == NatToDecimal(n / 10);
    }
  }

  /** `%d` formatting is read back exactly, for every integer. */
  lemma IntToStringRoundTrip(n: int)
    ensures ParseInt(IntToString(n)) == n
  {
    if n < 0 {
      NatToDecimalRoundTrip(-n);
      assert IntToString(n)[1..] == NatToDecimal(-n);
    } else {
      NatToDecimalRoundTrip(n);
    }
  }

  // ---------------------------------------------------------------------
  // Joining and splitting

  /** PHP `implode($sep, $ws)`. */
  function Join(ws: seq<string>, sep: string): (s: string)
    ensures ws == [] ==> s == []
    ensures |ws| == 1 ==> s == ws[0]
    ensures |ws| > 1 ==> ws[0] + sep <= s
  {
    if ws == [] then [] else if |ws| == 1 then ws[0] else ws[0] + sep + Join(ws[1..], sep)
  }

  /** Index of the first `c` in `s`, or `|s|` when there is none. */
  function IndexOf(s: string, c: char): (i: nat)
    ensures i <= |s| && (i == |s| || s[i] == c)
    ensures forall k :: 0 <= k < i ==> s[k] != c
    decreases |s|
  {
    if s == [] || s[0] == c then 0 else 1 + IndexOf(s[1..], c)
  }

  /** PHP `explode($c, $s)` for a one-character separator. */
  function Split(s: string, c: char): (ws: seq<string>)
    ensures ws != []
    ensures forall k :: 0 <= k < |ws| ==> c !in ws[k]
    decreases |s|
  {
    var i := IndexOf(s, c);
    if i == |s| then [s] else [s[..i]] + Split(s[i + 1..], c)
  }

  /** Splitting undoes joining when no piece contains the separator. */
  lemma {:induction false} SplitJoin(ws: seq<string>, c: char)
    requires ws != []
    requires forall k :: 0 <= k < |ws| ==> c !in ws[k]
    ensures Split(Join(ws, [c]), c) == ws
    decreases |ws|
  {
    var w := ws[0];
    var s := Join(ws, [c]);
    if |ws| == 1 {
    } else {
      var rest := Join(ws[1..], [c]);
      assert s == w + [c] + rest;
      assert s[|w|] == c;
      assert s[..|w|] == w;
      assert s[|w| + 1..] == rest;
      SplitJoin(ws[1..], c);
      assert ws == [w] + ws[1..];
    }
  }
}
