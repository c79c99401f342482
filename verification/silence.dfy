/** The silence-marker parser of `detect_audio_silence`: every number that the
    regular expression `silence_end: (\d+(\.\d+)?)` captures in ffmpeg's
    diagnostic text, found the way `re.finditer` finds them (leftmost match
    first, the search resuming where the previous match ended, `\d+` and the
    optional fraction both greedy). Numbers are exact reals. */
module Silence {
  import opened Wrappers
  import opened Digits

  const Marker: string := "silence_end: "

  /** Group 1 of one match, split at group 2: the integer digits, and group
      2 `(\.\d+)` itself, which is the dot with the fraction digits, or empty
      when the optional group did not take part. */
  datatype Decimal = Decimal(whole: string, point: string)

  /** One match of the expression: where it starts and what it captured. */
  datatype Found = Found(pos: nat, number: Decimal)

  predicate WellFormed(d: Decimal)
  {
    && |d.whole| >= 1 && AllDigits(d.whole)
    && (|d.point| == 0 || (|d.point| >= 2 && d.point[0] == '.' && AllDigits(d.point[1..])))
  }

  /** The fraction digits: group 2 without its dot. */
  function Fraction(d: Decimal): string
  {
    if |d.point| == 0 then "" else d.point[1..]
  }

  /** The text of group 1, as it appears after the marker. */
  function Text(d: Decimal): string
  {
    d.whole + d.point
  }

  /** The length of a whole match: the marker and group 1. */
  function MatchLength(d: Decimal): nat
  {
    |Marker| + |d.whole| + |d.point|
  }

  /** The exact value of the captured number (what `float(...)` approximates):
      the integer digits plus the fraction digits shifted behind the point. */
  function Value(d: Decimal): (v: real)
    requires WellFormed(d)
    ensures v >= 0.0
    ensures v >= ValueOf(d.whole) as real
    ensures v < ValueOf(d.whole) as real + 1.0
  {
    var f := Fraction(d);
    ValueBelowPow10(f);
    ShiftBelowOne(ValueOf(f), |f|);
    ValueOf(d.whole) as real + Shift(ValueOf(f), |f|)
  }

  /** `n` moved `k` decimal places behind the point, one place at a time. */
  function Shift(n: nat, k: nat): (x: real)
    ensures x >= 0.0
  {
    if k == 0 then n as real else Shift(n, k - 1) / 10.0
  }

  /** Shifting `k` places is dividing by 10^k. */
  lemma {:induction false} ShiftScaled(n: nat, k: nat)
    ensures Shift(n, k) * Pow10(k) as real == n as real
  {
    if k > 0 {
      ShiftScaled(n, k - 1);
      ShiftStep(Shift(n, k - 1), Pow10(k - 1) as real, n as real);
    }
  }

  lemma ShiftStep(x: real, p: real, n: real)
    requires x * p == n
    ensures x / 10.0 * (10.0 * p) == n
  {
  }

  /** A number of fewer than `k + 1` digits shifted `k` places is a fraction. */
  lemma {:induction false} ShiftBelowOne(n: nat, k: nat)
    requires n < Pow10(k)
    ensures Shift(n, k) < 1.0
  {
    ShiftScaled(n, k);
    BelowOne(Shift(n, k), Pow10(k) as real, n as real);
  }

  lemma BelowOne(x: real, p: real, n: real)
    requires x >= 0.0 && p >= 1.0 && x * p == n && n < p
    ensures x < 1.0
  {
  }

  /** The value is the number the digits denote with the dot removed,
      shifted one place per fraction digit: "12.05" is 1205 shifted 2 places. */
  lemma {:induction false} ValueDigits(d: Decimal)
    requires WellFormed(d)
    ensures Value(d) == Shift(ValueOf(d.whole + Fraction(d)), |Fraction(d)|)
  {
    var f := Fraction(d);
    var w := ValueOf(d.whole);
    ValueOfAppend(d.whole, f);
    ShiftAdd(w * Pow10(|f|), ValueOf(f), |f|);
    ShiftWhole(w, |f|);
  }

  lemma Regroup(w: nat, p: nat)
    ensures w * (10 * p) == (w * 10) * p
  {
  }

  /** Shifting distributes over a sum. */
  lemma {:induction false} ShiftAdd(a: nat, b: nat, k: nat)
    ensures Shift(a + b, k) == Shift(a, k) + Shift(b, k)
  {
    if k > 0 {
      ShiftAdd(a, b, k - 1);
    }
  }

  /** Shifting `w * 10^k` by `k` places gives back `w`. */
  lemma {:induction false} ShiftWhole(w: nat, k: nat)
    ensures Shift(w * Pow10(k), k) == w as real
    decreases k
  {
    if k > 0 {
      Regroup(w, Pow10(k - 1));
      ShiftWhole(w * 10, k - 1);
    }
  }

  /** Where the greedy run of digits starting at `i` ends (how far `\d+`
      or `\d*` consumes from there). */
  function RunEnd(s: string, i: nat): (e: nat)
    requires i <= |s|
    ensures i <= e <= |s|
    ensures e == |s| || !IsDigit(s[e])
    decreases |s| - i
  {
    if i < |s| && IsDigit(s[i]) then RunEnd(s, i + 1) else i
  }

  /** Everything the run from `i` passes over is a digit. */
  lemma {:induction false} RunEndDigits(s: string, i: nat)
    requires i <= |s|
    ensures AllDigits(s[i..RunEnd(s, i)])
    decreases |s| - i
  {
    var e := RunEnd(s, i);
    if i < |s| && IsDigit(s[i]) {
      RunEndDigits(s, i + 1);
      assert s[i..e] == [s[i]] + s[i + 1..e];
    }
  }

  /** The character at `e` cannot extend a match whose capture is `d`:
      greedy matching stopped there. */
  predicate StopsAt(s: string, e: nat, d: Decimal)
    requires e <= |s|
  {
    e == |s| ||
    (!IsDigit(s[e]) &&
     (|d.point| > 0 || !(s[e] == '.' && e + 1 < |s| && IsDigit(s[e + 1]))))
  }

  /** What group 1 captures when it starts at `q`: the greedy `\d+`, then
      `.` and the greedy fraction digits if a digit follows the dot. */
  function CaptureAt(s: string, q: nat): (d: Decimal)
    requires q < |s| && IsDigit(s[q])
    ensures WellFormed(d)
    ensures q + |Text(d)| <= |s|
  {
    CaptureShape(s, q);
    CaptureFrom(s, q, q)
  }

  /** Group 1 starting at `q` once the integer digits `s[q..i]` have been
      consumed: more integer digits while there are any, then '.' and the
      fraction digits if a digit follows the dot, else nothing more. */
  function CaptureFrom(s: string, q: nat, i: nat): Decimal
    requires q <= i <= |s|
    decreases |s| - i
  {
    if i < |s| && IsDigit(s[i]) then CaptureFrom(s, q, i + 1)
    else if i + 1 < |s| && s[i] == '.' && IsDigit(s[i + 1]) then Decimal(s[q..i], s[i..RunEnd(s, i + 1)])
    else Decimal(s[q..i], "")
  }

  /** The capture in terms of the digit runs: the integer digits end where
      the run through `i` ends, and the fraction digits, if any, run from
      just after the dot. */
  lemma {:induction false} CaptureFromSpec(s: string, q: nat, i: nat)
    requires q <= i <= |s|
    ensures var e := RunEnd(s, i);
      CaptureFrom(s, q, i) ==
        if e + 1 < |s| && s[e] == '.' && IsDigit(s[e + 1])
        then Decimal(s[q..e], s[e..RunEnd(s, e + 1)])
        else Decimal(s[q..e], "")
    decreases |s| - i
  {
    if i < |s| && IsDigit(s[i]) {
      CaptureFromSpec(s, q, i + 1);
    }
  }

  /** The capture from a digit is well formed and lies inside the text. */
  lemma {:induction false} CaptureShape(s: string, q: nat)
    requires q < |s| && IsDigit(s[q])
    ensures WellFormed(CaptureFrom(s, q, q))
    ensures q + |Text(CaptureFrom(s, q, q))| <= |s|
  {
    CaptureFromSpec(s, q, q);
    var e := RunEnd(s, q);
    RunEndDigits(s, q);
    assert e > q;
    if e + 1 < |s| && s[e] == '.' && IsDigit(s[e + 1]) {
      var f := RunEnd(s, e + 1);
      RunEndDigits(s, e + 1);
      assert s[e..f][1..] == s[e + 1..f];
    }
  }

  /** The match of the expression anchored at position `p`, if there is one. */
  function MatchAt(s: string, p: nat): (m: Option<Decimal>)
    requires p <= |s|
    ensures m.Some? ==> WellFormed(m.value) && p + MatchLength(m.value) <= |s|
  {
    MatchFrom(s, p, Marker, 0)
  }

  /** What follows a complete marker ending before `q`: a match when a
      digit starts there. */
  function AfterMarker(s: string, q: nat): (m: Option<Decimal>)
    requires q <= |s|
    ensures m.Some? ==> WellFormed(m.value) && q + |Text(m.value)| <= |s|
  {
    if q < |s| && IsDigit(s[q]) then Some(CaptureAt(s, q)) else None
  }

  /** The match, anchored at `p`, of the literal `lit` followed by group 1,
      once the first `k` characters of `lit` have been matched there: the
      rest of the literal, character by character, then a digit, then the
      capture. */
  function MatchFrom(s: string, p: nat, lit: string, k: nat): (m: Option<Decimal>)
    requires k <= |lit| && p + k <= |s|
    ensures m.Some? ==> WellFormed(m.value) && p + |lit| + |Text(m.value)| <= |s|
    decreases |lit| - k
  {
    if k == |lit| then AfterMarker(s, p + k)
    else if p + k < |s| && s[p + k] == lit[k] then MatchFrom(s, p, lit, k + 1)
    else None
  }

  /** A table of anchored matches: entry `p` is the match starting at `p`.
      Each match ends inside the text. */
  predicate ValidTable(t: seq<Option<Decimal>>)
  {
    forall p :: 0 <= p < |t| && t[p].Some? ==> p + MatchLength(t[p].value) <= |t|
  }

  /** Every match in the table captured a well-formed number. */
  predicate WellFormedTable(t: seq<Option<Decimal>>)
  {
    forall p :: 0 <= p < |t| && t[p].Some? ==> WellFormed(t[p].value)
  }

  /** The anchored matches at the positions of `s` from `p` on. */
  function TableFrom(s: string, p: nat): (t: seq<Option<Decimal>>)
    requires p <= |s|
    ensures |t| == |s| - p
    decreases |s| - p
  {
    if p == |s| then [] else [MatchAt(s, p)] + TableFrom(s, p + 1)
  }

  lemma {:induction false} TableFromValid(s: string, p: nat)
    requires p <= |s|
    ensures forall k :: 0 <= k < |s| - p && TableFrom(s, p)[k].Some? ==>
      WellFormed(TableFrom(s, p)[k].value) && p + k + MatchLength(TableFrom(s, p)[k].value) <= |s|
    decreases |s| - p
  {
    if p < |s| {
      TableFromValid(s, p + 1);
      var t := TableFrom(s, p);
      assert t == [MatchAt(s, p)] + TableFrom(s, p + 1);
      forall k | 0 < k < |s| - p
        ensures t[k] == TableFrom(s, p + 1)[k - 1]
      {
      }
    }
  }

  /** The anchored matches at every position of `s`. */
  function Table(s: string): (t: seq<Option<Decimal>>)
    ensures |t| == |s| && ValidTable(t) && WellFormedTable(t)
  {
    TableFromValid(s, 0);
    TableFrom(s, 0)
  }

  /** All matches at or after position `i`, as `re.finditer` yields them: try
      to match at `i`; on success report it and resume at its end, otherwise
      move one character on. */
  function FindIn(t: seq<Option<Decimal>>, i: nat): (ms: seq<Found>)
    requires ValidTable(t) && i <= |t|
    ensures forall k :: 0 <= k < |ms| ==> i <= ms[k].pos < |t|
    decreases |t| - i
  {
    if i == |t| then []
    else
      match t[i]
      case Some(d) => [Found(i, d)] + FindIn(t, i + MatchLength(d))
      case None => FindIn(t, i + 1)
  }

  /** Every match of the expression in `s`, in order of appearance. */
  function Matches(s: string): seq<Found>
  {
    FindIn(Table(s), 0)
  }

  /** A scan of a table of well-formed matches reports well-formed numbers. */
  lemma {:induction false} FindInWellFormed(t: seq<Option<Decimal>>, i: nat)
    requires ValidTable(t) && WellFormedTable(t) && i <= |t|
    ensures forall k :: 0 <= k < |FindIn(t, i)| ==> WellFormed(FindIn(t, i)[k].number)
    decreases |t| - i
  {
    if i < |t| {
      match t[i]
      case Some(d) =>
        var rest := FindIn(t, i + MatchLength(d));
        FindInWellFormed(t, i + MatchLength(d));
        assert FindIn(t, i) == [Found(i, d)] + rest;
      case None =>
        FindInWellFormed(t, i + 1);
    }
  }

  function Numbers(ms: seq<Found>): (ds: seq<Decimal>)
    ensures |ds| == |ms|
    ensures forall k :: 0 <= k < |ms| ==> ds[k] == ms[k].number
  {
    seq(|ms|, k requires 0 <= k < |ms| => ms[k].number)
  }

  /** `detect_audio_silence`: the silence ends found in ffmpeg's stderr text. */
  function SilenceEnds(output: string): (ends: seq<real>)
    ensures |ends| == |Matches(output)|
    ensures forall k :: 0 <= k < |ends| ==> ends[k] >= 0.0
  {
    var ms := Matches(output);
    FindInWellFormed(Table(output), 0);
    seq(|ms|, k requires 0 <= k < |ms| => Value(ms[k].number))
  }

  /** No match starts anywhere in `[lo, hi)`. */
  predicate NoMatchIn(t: seq<Option<Decimal>>, lo: nat, hi: nat)
  {
    forall p :: lo <= p < hi && p < |t| ==> t[p].None?
  }

  /** `ms` is the result of scanning from `i` leftmost-first without overlap:
      with no match left, nothing is reported; otherwise the first report is the
      first match at or after `i`, and the rest is the scan from its end. */
  predicate IsScan(t: seq<Option<Decimal>>, i: nat, ms: seq<Found>)
    decreases |ms|
  {
    && i <= |t|
    && if |ms| == 0 then
         NoMatchIn(t, i, |t|)
       else
         && i <= ms[0].pos < |t|
         && t[ms[0].pos] == Some(ms[0].number)
         && NoMatchIn(t, i, ms[0].pos)
         && IsScan(t, ms[0].pos + MatchLength(ms[0].number), ms[1..])
  }
}

/** Properties of the silence-marker parser. */
module SilenceFacts {
  import opened Wrappers
  import opened Digits
  import opened Silence

  lemma {:induction false} TableFromAt(s: string, p: nat, k: nat)
    requires p + k < |s|
    ensures TableFrom(s, p)[k] == MatchAt(s, p + k)
    decreases k
  {
    var t := TableFrom(s, p + 1);
    assert TableFrom(s, p) == [MatchAt(s, p)] + t;
    if k > 0 {
      assert TableFrom(s, p)[k] == t[k - 1];
      TableFromAt(s, p + 1, k - 1);
    }
  }

  /** Entry `p` of the table is the match anchored at `p`. */
  lemma {:induction false} TableAt(s: string, p: nat)
    requires p < |s|
    ensures Table(s)[p] == MatchAt(s, p)
  {
    TableFromAt(s, 0, p);
  }

  /** The run end is the only position that closes a run of digits from `i`. */
  lemma {:induction false} RunEndUnique(s: string, i: nat, e: nat)
    requires i <= e <= |s|
    requires forall k :: i <= k < e ==> IsDigit(s[k])
    requires e == |s| || !IsDigit(s[e])
    ensures RunEnd(s, i) == e
    decreases e - i
  {
    if i < e {
      RunEndUnique(s, i + 1, e);
    }
  }

  /** The capture when the integer digits end at `e` and no fraction follows. */
  lemma {:induction false} CaptureAtWhole(s: string, q: nat, e: nat)
    requires q < |s| && IsDigit(s[q]) && RunEnd(s, q) == e
    requires !(e + 1 < |s| && s[e] == '.' && IsDigit(s[e + 1]))
    ensures CaptureAt(s, q) == Decimal(s[q..e], "")
  {
    CaptureFromSpec(s, q, q);
  }

  /** The capture when the integer digits end at `e`, a '.' and a digit
      follow, and the fraction digits end at `f`. */
  lemma {:induction false} CaptureAtFraction(s: string, q: nat, e: nat, f: nat)
    requires q < |s| && IsDigit(s[q]) && RunEnd(s, q) == e
    requires e + 1 < |s| && s[e] == '.' && IsDigit(s[e + 1]) && RunEnd(s, e + 1) == f
    ensures CaptureAt(s, q) == Decimal(s[q..e], s[e..f])
  {
    CaptureFromSpec(s, q, q);
  }

  /** The capture is the text actually found at `q`. */
  lemma {:induction false} CaptureAtSpan(s: string, q: nat)
    requires q < |s| && IsDigit(s[q])
    ensures var d := CaptureAt(s, q); s[q..q + |Text(d)|] == Text(d)
  {
    var e := RunEnd(s, q);
    if e + 1 < |s| && s[e] == '.' && IsDigit(s[e + 1]) {
      var f := RunEnd(s, e + 1);
      CaptureAtFraction(s, q, e, f);
      assert s[q..f] == s[q..e] + s[e..f];
    } else {
      CaptureAtWhole(s, q, e);
    }
  }

  /** Greedy matching could not have taken the character after the capture. */
  lemma {:induction false} CaptureAtGreedy(s: string, q: nat)
    requires q < |s| && IsDigit(s[q])
    ensures var d := CaptureAt(s, q); StopsAt(s, q + |Text(d)|, d)
  {
    var e := RunEnd(s, q);
    if e + 1 < |s| && s[e] == '.' && IsDigit(s[e + 1]) {
      var f := RunEnd(s, e + 1);
      CaptureAtFraction(s, q, e, f);
    } else {
      CaptureAtWhole(s, q, e);
    }
  }

  /** A well-formed number written at `q` and not extendable there is
      the capture at `q`. */
  lemma {:induction false} CaptureAtUnique(s: string, q: nat, d: Decimal)
    requires WellFormed(d) && q + |Text(d)| <= |s|
    requires s[q..q + |Text(d)|] == Text(d)
    requires StopsAt(s, q + |Text(d)|, d)
    ensures q < |s| && IsDigit(s[q])
    ensures CaptureAt(s, q) == d
  {
    var e := q + |d.whole|;
    TextParts(s, q, d);
    assert s[q] == d.whole[0];
    DigitsAt(s, q, d.whole);
    RunEndUnique(s, q, e);
    if |d.point| == 0 {
      CaptureAtWhole(s, q, e);
    } else {
      FractionRun(s, q, d);
      CaptureAtFraction(s, q, e, q + |Text(d)|);
    }
  }

  /** Where a number is written, its integer digits and group 2 are written
      one after the other. */
  lemma {:induction false} TextParts(s: string, q: nat, d: Decimal)
    requires q + |Text(d)| <= |s| && s[q..q + |Text(d)|] == Text(d)
    ensures s[q..q + |d.whole|] == d.whole
    ensures s[q + |d.whole|..q + |Text(d)|] == d.point
  {
    var e := q + |d.whole|;
    var f := q + |Text(d)|;
    assert s[q..f][..|d.whole|] == s[q..e];
    assert s[q..f][|d.whole|..] == s[e..f];
  }

  /** Where a number with a fraction is written, its integer digits stop at
      the dot and the fraction digits run to its end. */
  lemma {:induction false} FractionRun(s: string, q: nat, d: Decimal)
    requires WellFormed(d) && |d.point| > 0 && q + |Text(d)| <= |s|
    requires s[q + |d.whole|..q + |Text(d)|] == d.point
    requires StopsAt(s, q + |Text(d)|, d)
    ensures var e := q + |d.whole|;
      e + 1 < |s| && s[e] == '.' && IsDigit(s[e + 1]) && RunEnd(s, e + 1) == q + |Text(d)|
  {
    var e := q + |d.whole|;
    var f := q + |Text(d)|;
    assert s[e] == d.point[0];
    assert s[e + 1..f] == d.point[1..];
    assert s[e + 1] == d.point[1];
    DigitsAt(s, e + 1, d.point[1..]);
    RunEndUnique(s, e + 1, f);
  }

  /** A digit string written at `i` is a run of digits there. */
  lemma {:induction false} DigitsAt(s: string, i: nat, w: string)
    requires AllDigits(w) && i + |w| <= |s| && s[i..i + |w|] == w
    ensures forall k :: i <= k < i + |w| ==> IsDigit(s[k])
  {
    forall k | i <= k < i + |w|
      ensures IsDigit(s[k])
    {
      assert s[k] == w[k - i];
    }
  }

  /** Matching the rest of the marker from `k` is comparing the rest of the
      text with it. */
  lemma {:induction false} MatchFromSpec(s: string, p: nat, lit: string, k: nat)
    requires k <= |lit| && p + k <= |s|
    ensures var q := p + |lit|;
      MatchFrom(s, p, lit, k) ==
        if q < |s| && s[p + k..q] == lit[k..] && IsDigit(s[q]) then Some(CaptureAt(s, q)) else None
    decreases |lit| - k
  {
    var q := p + |lit|;
    if k < |lit| && p + k < |s| {
      MatchFromSpec(s, p, lit, k + 1);
      if q <= |s| {
        assert s[p + k..q] == [s[p + k]] + s[p + k + 1..q];
        assert lit[k..] == [lit[k]] + lit[k + 1..];
      }
    }
  }

  /** The match anchored at `p`: the marker at `p`, a digit after it, and the
      capture starting at that digit. */
  lemma {:induction false} MatchAtSpec(s: string, p: nat)
    requires p <= |s|
    ensures var q := p + |Marker|;
      MatchAt(s, p) ==
        if q < |s| && s[p..q] == Marker && IsDigit(s[q]) then Some(CaptureAt(s, q)) else None
  {
    MatchFromSpec(s, p, Marker, 0);
    assert Marker[0..] == Marker;
  }

  /** A match exists at `p` exactly when the marker and a digit are there. */
  lemma {:induction false} MatchAtExists(s: string, p: nat)
    requires p <= |s|
    ensures MatchAt(s, p).Some? <==>
              p + |Marker| < |s| && s[p..p + |Marker|] == Marker && IsDigit(s[p + |Marker|])
  {
    MatchAtSpec(s, p);
  }

  lemma {:induction false} MatchAtIsCapture(s: string, p: nat, d: Decimal)
    requires p <= |s| && MatchAt(s, p) == Some(d)
    ensures p + |Marker| < |s| && IsDigit(s[p + |Marker|])
    ensures d == CaptureAt(s, p + |Marker|)
  {
    MatchAtSpec(s, p);
  }

  /** A match spans the marker and the captured number. */
  lemma {:induction false} MatchAtSpan(s: string, p: nat, d: Decimal)
    requires p <= |s| && MatchAt(s, p) == Some(d)
    ensures s[p..p + MatchLength(d)] == Marker + Text(d)
  {
    var q := p + |Marker|;
    MatchAtIsCapture(s, p, d);
    CaptureAtSpan(s, q);
    assert s[q..q + |Text(d)|] == Text(d);
    assert s[p..q] == Marker;
    SpanJoin(s, p, d);
  }

  /** A match is greedy: the character after it could not have extended it. */
  lemma {:induction false} MatchAtGreedy(s: string, p: nat, d: Decimal)
    requires p <= |s| && MatchAt(s, p) == Some(d)
    ensures StopsAt(s, p + MatchLength(d), d)
  {
    var q := p + |Marker|;
    MatchAtIsCapture(s, p, d);
    CaptureAtGreedy(s, q);
  }

  lemma {:induction false} SpanJoin(s: string, p: nat, d: Decimal)
    requires p + MatchLength(d) <= |s|
    requires s[p..p + |Marker|] == Marker
    requires s[p + |Marker|..p + MatchLength(d)] == Text(d)
    ensures s[p..p + MatchLength(d)] == Marker + Text(d)
  {
    assert s[p..p + MatchLength(d)] == s[p..p + |Marker|] + s[p + |Marker|..p + MatchLength(d)];
  }

  /** The scan from `i` is the leftmost non-overlapping one. */
  lemma {:induction false} FindInIsScan(t: seq<Option<Decimal>>, i: nat)
    requires ValidTable(t) && i <= |t|
    ensures IsScan(t, i, FindIn(t, i))
    decreases |t| - i
  {
    if i < |t| {
      match t[i]
      case Some(d) =>
        var rest := FindIn(t, i + MatchLength(d));
        assert FindIn(t, i) == [Found(i, d)] + rest;
        FindInIsScan(t, i + MatchLength(d));
        ScanReport(t, i, d, rest);
      case None =>
        assert FindIn(t, i) == FindIn(t, i + 1);
        FindInIsScan(t, i + 1);
        ScanSkip(t, i, FindIn(t, i + 1));
    }
  }

  /** A match at the search position is reported, and the scan resumes at its end. */
  lemma {:induction false} ScanReport(t: seq<Option<Decimal>>, i: nat, d: Decimal, rest: seq<Found>)
    requires i < |t| && t[i] == Some(d)
    requires IsScan(t, i + MatchLength(d), rest)
    ensures IsScan(t, i, [Found(i, d)] + rest)
  {
    var ms := [Found(i, d)] + rest;
    assert ms[0] == Found(i, d);
    assert ms[1..] == rest;
    assert NoMatchIn(t, i, i);
  }

  /** A position where nothing matches is skipped. */
  lemma {:induction false} ScanSkip(t: seq<Option<Decimal>>, i: nat, ms: seq<Found>)
    requires i < |t| && t[i].None?
    requires IsScan(t, i + 1, ms)
    ensures IsScan(t, i, ms)
  {
    if |ms| == 0 {
      assert NoMatchIn(t, i, |t|);
    } else {
      assert NoMatchIn(t, i, ms[0].pos);
    }
  }

  /** There is only one leftmost non-overlapping scan. */
  lemma {:induction false} ScanUnique(t: seq<Option<Decimal>>, i: nat, a: seq<Found>, b: seq<Found>)
    requires IsScan(t, i, a) && IsScan(t, i, b)
    ensures a == b
    decreases |a|
  {
    if |a| > 0 && |b| > 0 {
      if a[0].pos < b[0].pos {
        assert false;
      } else if b[0].pos < a[0].pos {
        assert false;
      }
      assert a[0] == b[0];
      ScanUnique(t, a[0].pos + MatchLength(a[0].number), a[1..], b[1..]);
      assert a == [a[0]] + a[1..];
      assert b == [b[0]] + b[1..];
    }
  }

  /** Reported matches are in order of appearance and do not overlap: each
      starts at or after the end of the one before. */
  lemma {:induction false} ScanOrdered(t: seq<Option<Decimal>>, i: nat, ms: seq<Found>, k: nat)
    requires IsScan(t, i, ms) && k + 1 < |ms|
    ensures ms[k].pos + MatchLength(ms[k].number) <= ms[k + 1].pos
    decreases k
  {
    if k > 0 {
      ScanOrdered(t, ms[0].pos + MatchLength(ms[0].number), ms[1..], k - 1);
    }
  }

  /** `Matches` is exactly the leftmost non-overlapping scan of the whole text. */
  lemma {:induction false} MatchesCharacterized(s: string, ms: seq<Found>)
    ensures IsScan(Table(s), 0, ms) <==> ms == Matches(s)
  {
    FindInIsScan(Table(s), 0);
    if IsScan(Table(s), 0, ms) {
      ScanUnique(Table(s), 0, ms, Matches(s));
    }
  }

  /** The silence ends are, in order, the values of the numbers that the
      leftmost non-overlapping scan captures. */
  lemma {:induction false} SilenceEndsCharacterized(s: string, ms: seq<Found>)
    requires IsScan(Table(s), 0, ms)
    ensures |SilenceEnds(s)| == |ms|
    ensures forall k :: 0 <= k < |ms| ==>
      WellFormed(ms[k].number) && SilenceEnds(s)[k] == Value(ms[k].number)
  {
    MatchesCharacterized(s, ms);
    FindInWellFormed(Table(s), 0);
  }

  /** Text with no match anywhere yields no silence end, and only such text does. */
  lemma {:induction false} NoMatchNoEnds(s: string)
    ensures SilenceEnds(s) == [] <==> forall p :: 0 <= p < |s| ==> MatchAt(s, p).None?
  {
    var t := Table(s);
    MatchesCharacterized(s, []);
    forall p | 0 <= p < |s|
      ensures t[p] == MatchAt(s, p)
    {
      TableAt(s, p);
    }
    if forall p :: 0 <= p < |s| ==> MatchAt(s, p).None? {
      assert NoMatchIn(t, 0, |t|);
      assert IsScan(t, 0, []);
    }
  }
}

/** The parser read against text built from known numbers, and on the edge
    cases of the expression. */
module SilenceExamples {
  import opened Wrappers
  import opened Digits
  import opened Silence
  import opened SilenceFacts

  /** One diagnostic line reporting the silence end `d`. */
  function Line(d: Decimal): string
  {
    Marker + Text(d) + "\n"
  }

  /** A diagnostic text reporting the silence ends `ds`, one per line. */
  function Render(ds: seq<Decimal>): string
  {
    if |ds| == 0 then "" else Line(ds[0]) + Render(ds[1..])
  }

  /** `s` ends with `b`, which starts at offset `o`. */
  predicate Agree(s: string, o: nat, b: string)
  {
    |s| == o + |b| && forall k :: 0 <= k < |b| ==> s[o + k] == b[k]
  }

  lemma {:induction false} SliceAgree(s: string, o: nat, b: string, i: nat, e: nat)
    requires Agree(s, o, b) && i <= e <= |b|
    ensures s[o + i..o + e] == b[i..e]
  {
    forall k | 0 <= k < e - i
      ensures s[o + i..o + e][k] == b[i..e][k]
    {
    }
  }

  /** The capture depends only on the text from the capture on. */
  lemma {:induction false} CaptureAtShift(s: string, o: nat, b: string, j: nat)
    requires Agree(s, o, b) && j < |b| && IsDigit(b[j])
    ensures s[o + j] == b[j]
    ensures CaptureAt(s, o + j) == CaptureAt(b, j)
  {
    var d := CaptureAt(b, j);
    var n := |Text(d)|;
    CaptureAtSpan(b, j);
    CaptureAtGreedy(b, j);
    SliceAgree(s, o, b, j, j + n);
    StopsShift(s, o, b, j + n, d);
    CaptureAtUnique(s, o + j, d);
  }

  /** Whether greedy matching stops at a position depends only on the text
      from there on. */
  lemma {:induction false} StopsShift(s: string, o: nat, b: string, e: nat, d: Decimal)
    requires Agree(s, o, b) && e <= |b| && StopsAt(b, e, d)
    ensures StopsAt(s, o + e, d)
  {
    if e < |b| {
      assert s[o + e] == b[e];
      if e + 1 < |b| {
        assert s[o + e + 1] == b[e + 1];
      }
    }
  }

  /** Whether a match starts at a position depends only on the text from there on. */
  lemma {:induction false} MatchAtShift(s: string, o: nat, b: string, j: nat)
    requires Agree(s, o, b) && j <= |b|
    ensures MatchAt(s, o + j) == MatchAt(b, j)
  {
    MatchFromShift(s, o, b, j, Marker, 0);
  }

  lemma {:induction false} MatchFromShift(s: string, o: nat, b: string, j: nat, lit: string, k: nat)
    requires Agree(s, o, b) && k <= |lit| && j + k <= |b|
    ensures MatchFrom(s, o + j, lit, k) == MatchFrom(b, j, lit, k)
    decreases |lit| - k
  {
    if k == |lit| {
      AfterMarkerShift(s, o, b, j + k);
    } else if j + k < |b| {
      assert s[o + j + k] == b[j + k];
      MatchFromShift(s, o, b, j, lit, k + 1);
    }
  }

  lemma {:induction false} AfterMarkerShift(s: string, o: nat, b: string, j: nat)
    requires Agree(s, o, b) && j <= |b|
    ensures AfterMarker(s, o + j) == AfterMarker(b, j)
  {
    if j < |b| {
      assert s[o + j] == b[j];
      if IsDigit(b[j]) {
        CaptureAtShift(s, o, b, j);
      }
    }
  }

  lemma NumbersCons(m: Found, ms: seq<Found>)
    ensures Numbers([m] + ms) == [m.number] + Numbers(ms)
  {
  }

  /** Two tables that agree from an offset on yield the same numbers from
      there on. */
  lemma {:induction false} FindInShift(ta: seq<Option<Decimal>>, tb: seq<Option<Decimal>>, o: nat, j: nat)
    requires ValidTable(ta) && ValidTable(tb)
    requires |ta| == o + |tb| && j <= |tb|
    requires forall k :: 0 <= k < |tb| ==> ta[o + k] == tb[k]
    ensures Numbers(FindIn(ta, o + j)) == Numbers(FindIn(tb, j))
    decreases |tb| - j
  {
    if j < |tb| {
      assert ta[o + j] == tb[j];
      match tb[j]
      case Some(d) =>
        var n := MatchLength(d);
        FindInShift(ta, tb, o, j + n);
        assert FindIn(ta, o + j) == [Found(o + j, d)] + FindIn(ta, o + j + n);
        assert FindIn(tb, j) == [Found(j, d)] + FindIn(tb, j + n);
        NumbersCons(Found(o + j, d), FindIn(ta, o + j + n));
        NumbersCons(Found(j, d), FindIn(tb, j + n));
      case None =>
        assert FindIn(ta, o + j) == FindIn(ta, o + j + 1);
        assert FindIn(tb, j) == FindIn(tb, j + 1);
        FindInShift(ta, tb, o, j + 1);
    } else {
      assert FindIn(ta, o + j) == [];
      assert FindIn(tb, j) == [];
    }
  }

  /** The match tables of `s` and of its tail `b` agree from `o` on. */
  lemma {:induction false} TablesAgree(s: string, o: nat, b: string, k: nat)
    requires Agree(s, o, b) && k < |b|
    ensures Table(s)[o + k] == Table(b)[k]
  {
    MatchAtShift(s, o, b, k);
    TableAt(s, o + k);
    TableAt(b, k);
  }

  lemma {:induction false} AgreeAppend(a: string, b: string)
    ensures Agree(a + b, |a|, b)
  {
  }

  lemma {:induction false} TablesAgreeAll(s: string, o: nat, b: string)
    requires Agree(s, o, b)
    ensures |Table(s)| == o + |Table(b)|
    ensures forall k :: 0 <= k < |b| ==> Table(s)[o + k] == Table(b)[k]
  {
    forall k | 0 <= k < |b|
      ensures Table(s)[o + k] == Table(b)[k]
    {
      TablesAgree(s, o, b, k);
    }
  }

  /** Prepending text does not change the numbers found from a position on. */
  lemma {:induction false} FindInLocal(a: string, b: string, j: nat)
    requires j <= |b|
    ensures Numbers(FindIn(Table(a + b), |a| + j)) == Numbers(FindIn(Table(b), j))
  {
    var s := a + b;
    AgreeAppend(a, b);
    TablesAgreeAll(s, |a|, b);
    FindInShift(Table(s), Table(b), |a|, j);
  }

  /** A rendered line, whatever follows it, matches at its start with its own number. */
  lemma {:induction false} MatchAtLine(d: Decimal, rest: string)
    requires WellFormed(d)
    ensures MatchAt(Line(d) + rest, 0) == Some(d)
  {
    var s := Line(d) + rest;
    var q := |Marker|;
    var n := |Text(d)|;
    assert s == Marker + Text(d) + "\n" + rest;
    assert s[..q] == Marker;
    assert s[q..q + n] == Text(d);
    assert s[q + n] == '\n';
    CaptureAtUnique(s, q, d);
    MatchAtSpec(s, 0);
  }

  /** The newline ending a rendered line starts no match. */
  lemma {:induction false} NoMatchAtNewline(s: string, p: nat)
    requires p < |s| && s[p] == '\n'
    ensures MatchAt(s, p).None?
  {
    assert Marker[0] == 's';
  }

  /** The scan of a rendered line followed by more text reports the line's
      number and then resumes after the line's newline. */
  lemma {:induction false} FirstLine(d: Decimal, rest: string)
    requires WellFormed(d)
    ensures FindIn(Table(Line(d) + rest), 0) ==
      [Found(0, d)] + FindIn(Table(Line(d) + rest), |Line(d)|)
  {
    var s := Line(d) + rest;
    var t := Table(s);
    var n := MatchLength(d);
    assert |Line(d)| == n + 1;
    MatchAtLine(d, rest);
    TableAt(s, 0);
    assert FindIn(t, 0) == [Found(0, d)] + FindIn(t, n);
    assert s[n] == '\n';
    NoMatchAtNewline(s, n);
    TableAt(s, n);
  }

  /** A rendered line contributes its own number, then the text after it is
      read as if on its own. */
  lemma {:induction false} LineThenRest(d: Decimal, rest: string)
    requires WellFormed(d)
    ensures Numbers(Matches(Line(d) + rest)) == [d] + Numbers(Matches(rest))
  {
    var s := Line(d) + rest;
    FirstLine(d, rest);
    FindInLocal(Line(d), rest, 0);
    NumbersCons(Found(0, d), FindIn(Table(s), |Line(d)|));
  }

  /** Parsing text rendered from well-formed numbers gives those numbers back,
      in order. */
  lemma {:induction false} RenderRoundTrip(ds: seq<Decimal>)
    requires forall k :: 0 <= k < |ds| ==> WellFormed(ds[k])
    ensures Numbers(Matches(Render(ds))) == ds
  {
    if |ds| > 0 {
      LineThenRest(ds[0], Render(ds[1..]));
      RenderRoundTrip(ds[1..]);
      assert ds == [ds[0]] + ds[1..];
    } else {
      assert Matches("") == [];
    }
  }

  /** Parsing text rendered from well-formed numbers gives their values
      back as the silence ends, in order. */
  lemma {:induction false} SilenceEndsRoundTrip(ds: seq<Decimal>)
    requires forall k :: 0 <= k < |ds| ==> WellFormed(ds[k])
    ensures SilenceEnds(Render(ds)) == seq(|ds|, k requires 0 <= k < |ds| => Value(ds[k]))
  {
    var s := Render(ds);
    RenderRoundTrip(ds);
    var ms := Matches(s);
    assert Numbers(ms) == ds;
    forall k | 0 <= k < |ds|
      ensures SilenceEnds(s)[k] == Value(ds[k])
    {
      assert ms[k].number == ds[k];
    }
  }

  /** A dot with no digit after it is not consumed: "silence_end: 12." gives 12. */
  lemma {:induction false} TrailingDotIgnored()
    ensures SilenceEnds("silence_end: 12.") == [12.0]
  {
    var s := "silence_end: 12.";
    TrailingDotMatches();
    TwelveValue();
    assert |SilenceEnds(s)| == 1 && SilenceEnds(s)[0] == 12.0;
  }

  /** `12.05` has the value 12.05 exactly. */
  lemma {:induction false} FractionValue()
    ensures WellFormed(Decimal("12", ".05")) && Value(Decimal("12", ".05")) == 12.05
  {
    var d := Decimal("12", ".05");
    assert ValueOf(d.whole) == 12 by { assert "12"[..1] == "1"; }
    assert ValueOf(Fraction(d)) == 5 by { assert Fraction(d) == "05" && "05"[..1] == "0"; }
  }

  lemma {:induction false} TwelveValue()
    ensures WellFormed(Decimal("12", "")) && Value(Decimal("12", "")) == 12.0
  {
    assert "12"[..1] == "1";
    assert ValueOf("12") == 12;
  }

  lemma {:induction false} TrailingDotMatches()
    ensures Matches("silence_end: 12.") == [Found(0, Decimal("12", ""))]
  {
    var s := "silence_end: 12.";
    var t := Table(s);
    var d := Decimal("12", "");
    TrailingDotMatchAt();
    TableAt(s, 0);
    assert FindIn(t, 0) == [Found(0, d)] + FindIn(t, 15);
    assert Marker[0] == 's' && s[15] == '.';
    TableAt(s, 15);
    assert FindIn(t, 15) == [];
  }

  lemma {:induction false} TrailingDotMatchAt()
    ensures MatchAt("silence_end: 12.", 0) == Some(Decimal("12", ""))
  {
    var s := "silence_end: 12.";
    var d := Decimal("12", "");
    assert s[..|Marker|] == Marker;
    assert s[13..15] == "12" == Text(d);
    CaptureAtUnique(s, 13, d);
    MatchAtSpec(s, 0);
  }

  /** A sign is not part of the expression: "silence_end: -3" gives nothing. */
  lemma {:induction false} SignedNumberIgnored()
    ensures SilenceEnds("silence_end: -3") == []
  {
    var s := "silence_end: -3";
    forall p | 0 <= p < |s|
      ensures MatchAt(s, p).None?
    {
      MatchAtSpec(s, p);
      if p == 1 {
        assert s[1..1 + |Marker|][0] != Marker[0];
      }
    }
    NoMatchNoEnds(s);
  }
}
