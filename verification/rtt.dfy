/** Round-trip-time tokens: finding them in a hop line, removing them,
    and turning them into the hop's `pingTime`.

    Windows prints whole milliseconds (`12 ms`, or `<1 ms` for sub-
    millisecond replies); Unix prints decimals (`0.123 ms`). The average
    is computed exactly here, over `real`, and rounded half away from
    zero as PHP's `round()` does. */
module Rtt {
  import opened Wrappers
  import opened Text
  import opened Scanning

  /** `\s*ms` runs from `a` to `k`: whitespace, then "ms" ending at `k`. */
  predicate MsFrom(s: string, a: nat, k: nat) {
    && a + 2 <= k <= |s|
    && (forall j :: a <= j < k - 2 ==> IsSpace(s[j]))
    && s[k - 2] == 'm' && s[k - 1] == 's'
  }

  /** `\s*ms` from `e`: where it ends, if it matches. */
  function MsAfter(s: string, e: nat): (r: Option<nat>)
    requires e <= |s|
    ensures r.Some? ==> MsFrom(s, e, r.value)
    ensures forall k: nat :: MsFrom(s, e, k) ==> r == Some(k)
  {
    var k := SpanEnd(IsSpace, s, e);
    if k + 2 <= |s| && s[k] == 'm' && s[k + 1] == 's' then Some(k + 2) else None
  }

  /** `\d+\s*ms` at `i`; the group is the digit run. The digit run is
      maximal: a shorter one would be followed by a digit, not by
      whitespace or "ms". */
  function DigitsMsAt(s: string, i: nat): (r: Option<Hit>)
    ensures r.Some? ==> Advances(s, i, r.value) && r.value.group != [] && AllDigits(r.value.group)
    ensures r.Some? ==>
              var e := i + |r.value.group|;
              && e <= |s| && s[i..e] == r.value.group
              && MaximalRun(IsDigit, s, i, e) && MsFrom(s, e, r.value.end)
    ensures forall e: nat, k: nat :: MaximalRun(IsDigit, s, i, e) && MsFrom(s, e, k) ==> r == Some(Hit(k, s[i..e]))
  {
    if i < |s| && IsDigit(s[i]) then
      var e := SpanEnd(IsDigit, s, i);
      match MsAfter(s, e)
      case Some(k) => Some(Hit(k, s[i..e]))
      case None => None
    else None
  }

  /** `(\d+|<\d+)\s*ms` at `i`: a Windows RTT token; the group keeps the `<`. */
  function WindowsRttAt(s: string, i: nat): (r: Option<Hit>)
    ensures r.Some? ==> Advances(s, i, r.value) && r.value.group != []
    ensures r.Some? ==>
              var e := i + |r.value.group|;
              && e <= |s| && s[i..e] == r.value.group && MsFrom(s, e, r.value.end)
              && (MaximalRun(IsDigit, s, i, e) || (s[i] == '<' && MaximalRun(IsDigit, s, i + 1, e)))
    ensures forall e: nat, k: nat :: MaximalRun(IsDigit, s, i, e) && MsFrom(s, e, k) ==> r == Some(Hit(k, s[i..e]))
    ensures forall e: nat, k: nat :: i < |s| && s[i] == '<' && MaximalRun(IsDigit, s, i + 1, e) && MsFrom(s, e, k)
              ==> r == Some(Hit(k, s[i..e]))
  {
    if i < |s| && IsDigit(s[i]) then DigitsMsAt(s, i) else BelowMsAt(s, i)
  }

  /** `<\d+\s*ms` at `i`, the "below one millisecond" alternative of a
      Windows RTT token; the group keeps the `<`. */
  function BelowMsAt(s: string, i: nat): (r: Option<Hit>)
    ensures r.Some? ==> Advances(s, i, r.value) && |r.value.group| >= 2
    ensures r.Some? ==>
              var e := i + |r.value.group|;
              && e <= |s| && s[i..e] == r.value.group && MsFrom(s, e, r.value.end)
              && s[i] == '<' && MaximalRun(IsDigit, s, i + 1, e)
    ensures forall e: nat, k: nat :: i < |s| && s[i] == '<' && MaximalRun(IsDigit, s, i + 1, e) && MsFrom(s, e, k)
              ==> r == Some(Hit(k, s[i..e]))
  {
    if i < |s| && s[i] == '<' then
      match DigitsMsAt(s, i + 1)
      case Some(h) =>
        var e := i + 1 + |h.group|;
        assert s[i..e] == [s[i]] + s[i + 1..e];
        Some(Hit(h.end, "<" + h.group))
      case None => None
    else None
  }

  /** `(\d+|<\d+)\s*ms\s+` at `i`: what the Windows parser deletes from the
      residual, a Windows RTT token and all the whitespace after it. */
  function WindowsRttStripAt(s: string, i: nat): (r: Option<Hit>)
    ensures r.Some? ==> Advances(s, i, r.value)
    ensures r.Some? ==>
              && WindowsRttAt(s, i).Some? && r.value.group == WindowsRttAt(s, i).value.group
              && MaximalRun(IsSpace, s, WindowsRttAt(s, i).value.end, r.value.end)
    ensures forall n: nat :: WindowsRttAt(s, i).Some? && MaximalRun(IsSpace, s, WindowsRttAt(s, i).value.end, n)
              ==> r == Some(Hit(n, WindowsRttAt(s, i).value.group))
  {
    match WindowsRttAt(s, i)
    case Some(h) =>
      if h.end < |s| && IsSpace(s[h.end]) then Some(Hit(SpanEnd(IsSpace, s, h.end), h.group)) else None
    case None => None
  }

  /** `s[i..e]` is `\d+\.\d+` with the dot at `d`, neither digit run extendable. */
  predicate DecimalRun(s: string, i: nat, d: nat, e: nat) {
    MaximalRun(IsDigit, s, i, d) && d < |s| && s[d] == '.' && MaximalRun(IsDigit, s, d + 1, e)
  }

  /** `(\d+\.\d+)\s*ms` at `i`: a Unix RTT token; the group is the decimal. */
  function UnixRttAt(s: string, i: nat): (r: Option<Hit>)
    ensures r.Some? ==> Advances(s, i, r.value)
    ensures r.Some? ==>
              var e := i + |r.value.group|;
              && e <= |s| && s[i..e] == r.value.group && MsFrom(s, e, r.value.end)
              && DecimalRun(s, i, SpanEnd(IsDigit, s, i), e)
    ensures forall d: nat, e: nat, k: nat :: DecimalRun(s, i, d, e) && MsFrom(s, e, k) ==> r == Some(Hit(k, s[i..e]))
  {
    match DecimalEnd(s, i)
    case Some(e) =>
      (match MsAfter(s, e)
       case Some(k) => Some(Hit(k, s[i..e]))
       case None => None)
    case None => None
  }

  /** End of `\d+\.\d+` at `i`, if it matches there. */
  function DecimalEnd(s: string, i: nat): (r: Option<nat>)
    ensures r.Some? ==> i < |s| && DecimalRun(s, i, SpanEnd(IsDigit, s, i), r.value)
    ensures forall d: nat, e: nat :: DecimalRun(s, i, d, e) ==> r == Some(e)
  {
    if i < |s| && IsDigit(s[i]) then
      var d := SpanEnd(IsDigit, s, i);
      if d + 1 < |s| && s[d] == '.' && IsDigit(s[d + 1]) then Some(SpanEnd(IsDigit, s, d + 1))
      else None
    else None
  }

  /** `\s+\d+\.\d+\s*ms` at `i`: what the Unix parser deletes from the
      residual, a Unix RTT token behind all the whitespace before it. */
  function UnixRttStripAt(s: string, i: nat): (r: Option<Hit>)
    ensures r.Some? ==> Advances(s, i, r.value)
    ensures r.Some? ==> i < |s| && IsSpace(s[i]) && r == UnixRttAt(s, SpanEnd(IsSpace, s, i))
    ensures forall w: nat :: MaximalRun(IsSpace, s, i, w) ==> r == UnixRttAt(s, w)
  {
    if i < |s| && IsSpace(s[i]) then
      match UnixRttAt(s, SpanEnd(IsSpace, s, i))
      case Some(h) => Some(h)
      case None => None
    else None
  }

  /** All captured groups of `preg_match_all`. */
  function Tokens(m: (string, nat) -> Option<Hit>, s: string): seq<string> {
    Groups(m, s, Scan(m, s, 0))
  }

  // ---------------------------------------------------------------------
  // Sample values

  /** One Windows sample in ms: `<N` counts as 1, `N` as N. */
  function WindowsSampleValue(token: string): (v: nat)
    ensures token != [] && token[0] == '<' ==> v == 1
    ensures AllDigits(token) ==> v == DigitsValue(token)
  {
    if token != [] && token[0] == '<' then 1 else DigitsValue(token)
  }

  /** A printed number of milliseconds reads back as itself, and any
      `<N` reads as 1. */
  lemma WindowsSampleReadsBack(n: nat)
    ensures WindowsSampleValue(NatToDecimal(n)) == n
    ensures WindowsSampleValue("<" + NatToDecimal(n)) == 1
  {
    NatToDecimalRoundTrip(n);
  }

  function WindowsSamples(line: string): (xs: seq<nat>) {
    var ts := Tokens(WindowsRttAt, line);
    seq(|ts|, k requires 0 <= k < |ts| => WindowsSampleValue(ts[k]))
  }

  function Pow10(n: nat): (p: nat)
    ensures p >= 1
  {
    if n == 0 then 1 else 10 * Pow10(n - 1)
  }

  /** Exact value of a decimal `I.F` (PHP reads it as a float). */
  function DecimalValue(token: string): (v: real)
    ensures v >= 0.0
  {
    var d := SpanEnd(IsDigit, token, 0);
    var whole := DigitsValue(token[..d]) as real;
    if d < |token| then
      var frac := token[d + 1..];
      whole + (DigitsValue(frac) as real) / (Pow10(|frac|) as real)
    else whole
  }

  lemma {:induction false} DigitsValueBelow(t: string)
    ensures DigitsValue(t) < Pow10(|t|)
    decreases |t|
  {
    if t != [] {
      DigitsValueBelow(t[..|t| - 1]);
    }
  }

  lemma FractionBelowOne(a: nat, p: nat)
    requires a < p
    ensures 0.0 <= (a as real) / (p as real) < 1.0
  {
  }

  /** A Unix RTT token `W.F` reads as W plus F over ten to the number of
      its digits. */
  lemma DecimalValueOfPieces(w: string, f: string)
    requires w != [] && AllDigits(w) && f != [] && AllDigits(f)
    ensures DecimalValue(w + "." + f)
              == DigitsValue(w) as real + (DigitsValue(f) as real) / (Pow10(|f|) as real)
  {
    DotSplits(w, f);
  }

  /** The digit run of `W.F` stops at the dot, leaving `W` before it and `F` after. */
  lemma DotSplits(w: string, f: string)
    requires AllDigits(w)
    ensures var t := w + "." + f;
            && |w| < |t| && SpanEnd(IsDigit, t, 0) == |w|
            && t[..|w|] == w && t[|w| + 1..] == f && |t| - |w| - 1 == |f|
  {
    var t := w + "." + f;
    assert t[|w|] == '.';
    assert t[..|w|] == w;
    assert t[|w| + 1..] == f;
    SpanEndUnique(IsDigit, t, 0, |w|);
  }

  /** ... so it is never below W and always below W + 1. */
  lemma DecimalValueBetween(w: string, f: string)
    requires w != [] && AllDigits(w) && f != [] && AllDigits(f)
    ensures DigitsValue(w) as real <= DecimalValue(w + "." + f) < DigitsValue(w) as real + 1.0
  {
    DecimalValueOfPieces(w, f);
    DigitsValueBelow(f);
    FractionBelowOne(DigitsValue(f), Pow10(|f|));
  }

  function UnixSamples(line: string): (xs: seq<real>)
    ensures forall k :: 0 <= k < |xs| ==> xs[k] >= 0.0
  {
    DecimalValues(Tokens(UnixRttAt, line))
  }

  /** The value of each decimal token, in order. */
  function DecimalValues(ts: seq<string>): (xs: seq<real>)
    ensures |xs| == |ts|
    ensures forall k :: 0 <= k < |xs| ==> xs[k] == DecimalValue(ts[k]) && xs[k] >= 0.0
  {
    seq(|ts|, k requires 0 <= k < |ts| => DecimalValue(ts[k]))
  }

  // ---------------------------------------------------------------------
  // Averaging and rounding

  function Sum(xs: seq<real>): real {
    if xs == [] then 0.0 else Sum(xs[..|xs| - 1]) + xs[|xs| - 1]
  }

  function SumNat(xs: seq<nat>): nat {
    if xs == [] then 0 else SumNat(xs[..|xs| - 1]) + xs[|xs| - 1]
  }

  function AsReals(xs: seq<nat>): (ys: seq<real>)
    ensures |ys| == |xs| && forall k :: 0 <= k < |xs| ==> ys[k] == xs[k] as real
  {
    seq(|xs|, k requires 0 <= k < |xs| => xs[k] as real)
  }

  /** `array_sum / count`, or 0 for no samples. */
  function Mean(xs: seq<real>): (m: real)
    ensures xs == [] ==> m == 0.0
    ensures xs != [] ==> m * (|xs| as real) == Sum(xs)
  {
    if xs == [] then 0.0 else Sum(xs) / (|xs| as real)
  }

  /** PHP `round()` to an integer: half away from zero. */
  function RoundHalfAwayFromZero(x: real): (r: int)
    ensures x >= 0.0 ==> r >= 0 && (r as real) - 0.5 <= x < (r as real) + 0.5
    ensures x < 0.0 ==> r <= 0 && (r as real) - 0.5 < x <= (r as real) + 0.5
  {
    if x >= 0.0 then (x + 0.5).Floor else -((-x + 0.5).Floor)
  }

  /** The hop's `pingTime`: the rounded mean of its samples. */
  function PingTime(xs: seq<real>): (r: int)
    ensures Mean(xs) >= 0.0 ==> r >= 0 && (r as real) - 0.5 <= Mean(xs) < (r as real) + 0.5
    ensures Mean(xs) < 0.0 ==> r <= 0 && (r as real) - 0.5 < Mean(xs) <= (r as real) + 0.5
  {
    RoundHalfAwayFromZero(Mean(xs))
  }

  lemma {:induction false} SumBounds(xs: seq<real>, lo: real, hi: real)
    requires forall k :: 0 <= k < |xs| ==> lo <= xs[k] <= hi
    ensures (|xs| as real) * lo <= Sum(xs) <= (|xs| as real) * hi
    decreases |xs|
  {
    if xs != [] {
      SumBounds(xs[..|xs| - 1], lo, hi);
    }
  }

  /** The mean lies between any lower and upper bound of the samples. */
  lemma MeanBetween(xs: seq<real>, lo: real, hi: real)
    requires xs != []
    requires forall k :: 0 <= k < |xs| ==> lo <= xs[k] <= hi
    ensures lo <= Mean(xs) <= hi
  {
    SumBounds(xs, lo, hi);
    var n := |xs| as real;
    assert n * lo <= Sum(xs) <= n * hi;
    assert Mean(xs) == Sum(xs) / n;
  }

  /** Non-negative samples give a non-negative `pingTime`. */
  lemma PingTimeNonNegative(xs: seq<real>)
    requires forall k :: 0 <= k < |xs| ==> xs[k] >= 0.0
    ensures PingTime(xs) >= 0
  {
    if xs != [] {
      SumNonNegative(xs);
    }
  }

  lemma {:induction false} SumNonNegative(xs: seq<real>)
    requires forall k :: 0 <= k < |xs| ==> xs[k] >= 0.0
    ensures Sum(xs) >= 0.0
    decreases |xs|
  {
    if xs != [] {
      SumNonNegative(xs[..|xs| - 1]);
    }
  }

  lemma {:induction false} SumAsReals(xs: seq<nat>)
    ensures Sum(AsReals(xs)) == SumNat(xs) as real
    decreases |xs|
  {
    if xs != [] {
      SumAsReals(xs[..|xs| - 1]);
      assert AsReals(xs)[..|xs| - 1] == AsReals(xs[..|xs| - 1]);
    }
  }

  lemma FloorOfQuotient(a: nat, b: nat)
    requires b > 0
    ensures ((a as real) / (b as real)).Floor == a / b
  {
    var q := a / b;
    var r := a % b;
    assert a == q * b + r;
    assert (a as real) == (q as real) * (b as real) + (r as real);
    assert (a as real) / (b as real) == (q as real) + (r as real) / (b as real);
    assert 0.0 <= (r as real) / (b as real) < 1.0;
  }

  lemma HalfShift(s: real, n: real)
    requires n > 0.0
    ensures s / n + 0.5 == (2.0 * s + n) / (2.0 * n)
  {
    assert (2.0 * s + n) / (2.0 * n) == (2.0 * s) / (2.0 * n) + n / (2.0 * n);
    assert (2.0 * s) / (2.0 * n) == s / n;
    assert n / (2.0 * n) == 0.5;
  }

  /** For whole-millisecond samples the rounded mean is the integer
      expression `(2*sum + n) div (2*n)`. */
  lemma WholeSamplesPingTime(xs: seq<nat>)
    requires xs != []
    ensures PingTime(AsReals(xs)) == (2 * SumNat(xs) + |xs|) / (2 * |xs|)
  {
    var n := |xs|;
    var s := SumNat(xs);
    SumAsReals(xs);
    var m := Mean(AsReals(xs));
    assert m == (s as real) / (n as real);
    assert m >= 0.0;
    HalfShift(s as real, n as real);
    var a := 2 * s + n;
    var b := 2 * n;
    assert a as real == 2.0 * (s as real) + (n as real);
    assert b as real == 2.0 * (n as real);
    assert m + 0.5 == (a as real) / (b as real);
    FloorOfQuotient(a, b);
  }

  /** Whole-millisecond samples round to a value between the smallest and largest sample. */
  lemma WholeSamplesPingTimeBetween(xs: seq<nat>, lo: nat, hi: nat)
    requires xs != []
    requires forall k :: 0 <= k < |xs| ==> lo <= xs[k] <= hi
    ensures lo <= PingTime(AsReals(xs)) <= hi
  {
    MeanBetween(AsReals(xs), lo as real, hi as real);
  }

  /** For whole-millisecond samples the rounded mean is an integer
      expression: 0 without samples, `(2*sum + n) div (2*n)` otherwise. */
  lemma WholeSamplesMean(xs: seq<nat>)
    ensures PingTime(AsReals(xs)) == (if xs == [] then 0 else (2 * SumNat(xs) + |xs|) / (2 * |xs|))
  {
    if xs != [] {
      WholeSamplesPingTime(xs);
    }
  }
}
