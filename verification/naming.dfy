/** The names derived from a recording's file name: the extension used for
    the temporary segment files, the name of each uploaded part, the name of
    the transcript file, and the button's label and identifier. */
module Naming {
  import opened Digits
  import opened Strings

  /** Longest button label, and longest button identifier, taken from the
      file name. */
  const LabelLimit: nat := 80
  const CustomIdLimit: nat := 100

  /** Whether `p[lo..hi]` holds a character other than '.'. */
  predicate HasNonDot(p: string, lo: nat, hi: nat)
    requires lo <= hi <= |p|
  {
    exists j :: lo <= j < hi && p[j] != '.'
  }

  /** Python's `os.path.splitext` on POSIX: the extension starts at the last
      '.' of the last path component, provided that component has a
      character other than '.' before it; leading dots belong to the root. */
  function SplitExt(p: string): (parts: (string, string))
    ensures parts.0 + parts.1 == p
  {
    var sep := LastIndexOf(p, '/');
    var dot := LastIndexOf(p, '.');
    if dot > sep && HasNonDot(p, sep + 1, dot) then (p[..dot], p[dot..]) else (p, "")
  }

  /** Declarative reading of an extension: `d` holds a '.', nothing after it
      is a '.' or a '/', and the same path component has a character other
      than '.' before it. */
  predicate ExtensionAt(p: string, d: nat)
  {
    d < |p| && p[d] == '.' &&
    '.' !in p[d + 1..] && '/' !in p[d + 1..] &&
    exists j :: 0 <= j < d && p[j] != '.' && '/' !in p[j..d]
  }

  function Stem(file: string): string
  {
    SplitExt(file).0
  }

  function Ext(file: string): string
  {
    SplitExt(file).1
  }

  /** The extension without its dot, as given to the segment planner; empty
      when the file has no extension. */
  function SegmentExt(file: string): (e: string)
    ensures Ext(file) == "" ==> e == ""
    ensures |Ext(file)| > 0 ==> Ext(file) == "." + e
  {
    var x := Ext(file);
    if |x| == 0 then "" else x[1..]
  }

  /** The suffix of every temporary segment file. */
  function SegmentSuffix(file: string): string
  {
    "." + SegmentExt(file)
  }

  /** The date as `strftime("%Y-%m-%d")` writes it. */
  function DateStr(year: nat, month: nat, day: nat): (s: string)
    requires 1 <= year <= 9999 && 1 <= month <= 12 && 1 <= day <= 31
  {
    Pad(year, 4) + "-" + Pad(month, 2) + "-" + Pad(day, 2)
  }

  /** The transcript's file name: the recording's root, '_', the date, ".txt". */
  function OutputName(file: string, year: nat, month: nat, day: nat): string
    requires 1 <= year <= 9999 && 1 <= month <= 12 && 1 <= day <= 31
  {
    Stem(file) + "_" + DateStr(year, month, day) + ".txt"
  }

  /** The upload name of segment `idx` (counted from 0). */
  function PartName(file: string, idx: nat): string
  {
    file + ".part" + ToDigits(idx)
  }

  function Min(a: nat, b: nat): nat
  {
    if a < b then a else b
  }

  /** The button's label: the first 80 characters of the file name. */
  function Label(file: string): (l: string)
    ensures |l| == Min(LabelLimit, |file|)
    ensures l <= file
    ensures l == file <==> |file| <= LabelLimit
  {
    file[..Min(LabelLimit, |file|)]
  }

  /** The button's identifier: the first 100 characters of the file name. */
  function CustomId(file: string): (c: string)
    ensures |c| == Min(CustomIdLimit, |file|)
    ensures c <= file
    ensures c == file <==> |file| <= CustomIdLimit
  {
    file[..Min(CustomIdLimit, |file|)]
  }
}

module NamingFacts {
  import opened Digits
  import opened Strings
  import opened Naming

  /** Every extension `SplitExt` reports is one in the declarative sense. */
  lemma {:induction false} SplitExtSound(p: string)
    ensures SplitExt(p).1 != "" ==> ExtensionAt(p, |SplitExt(p).0|)
  {
    var sep := LastIndexOf(p, '/');
    var dot := LastIndexOf(p, '.');
    if dot > sep && HasNonDot(p, sep + 1, dot) {
      var j :| sep + 1 <= j < dot && p[j] != '.';
      assert '/' !in p[j..dot] by {
        forall m | j <= m < dot
          ensures p[m] != '/'
        {
        }
      }
      assert '.' !in p[dot + 1..] && '/' !in p[dot + 1..] by {
        forall m | dot + 1 <= m < |p|
          ensures p[m] != '.' && p[m] != '/'
        {
        }
      }
      assert |p[..dot]| == dot;
    }
  }

  /** Every extension in the declarative sense is the one `SplitExt` reports. */
  lemma {:induction false} SplitExtComplete(p: string, d: nat)
    requires ExtensionAt(p, d)
    ensures SplitExt(p) == (p[..d], p[d..])
  {
    var j :| 0 <= j < d && p[j] != '.' && '/' !in p[j..d];
    var dot := LastIndexOf(p, '.');
    var sep := LastIndexOf(p, '/');
    assert dot == d;
    assert sep < j;
    assert HasNonDot(p, sep + 1, dot);
  }

  /** A name with no dot after its last '/' apart from leading dots, such as
      ".hidden", has no extension. */
  lemma {:induction false} LeadingDotsAreRoot(p: string, k: nat)
    requires k <= |p|
    requires forall i :: 0 <= i < k ==> p[i] == '.'
    requires forall i :: k <= i < |p| ==> p[i] != '.' && p[i] != '/'
    ensures SplitExt(p) == (p, "")
  {
    SplitExtSound(p);
  }

  /** Temporary segment files keep the recording's extension; a recording
      without one gets the bare suffix ".". */
  lemma {:induction false} SegmentSuffixIsExt(file: string)
    ensures SegmentSuffix(file) == if Ext(file) == "" then "." else Ext(file)
  {
  }

  /** The date string has the fixed shape YYYY-MM-DD and reads back as the
      date it was made from. */
  lemma {:induction false} DateStrRoundTrip(year: nat, month: nat, day: nat)
    requires 1 <= year <= 9999 && 1 <= month <= 12 && 1 <= day <= 31
    ensures |DateStr(year, month, day)| == 10
    ensures DateStr(year, month, day)[4] == '-' && DateStr(year, month, day)[7] == '-'
    ensures AllDigits(DateStr(year, month, day)[..4])
    ensures AllDigits(DateStr(year, month, day)[5..7])
    ensures AllDigits(DateStr(year, month, day)[8..])
    ensures ValueOf(DateStr(year, month, day)[..4]) == year
    ensures ValueOf(DateStr(year, month, day)[5..7]) == month
    ensures ValueOf(DateStr(year, month, day)[8..]) == day
  {
    assert Pow10(2) == 100 && Pow10(4) == 10000;
    ToDigitsLength(year, 4);
    ToDigitsLength(month, 2);
    ToDigitsLength(day, 2);
    var y, m, d := Pad(year, 4), Pad(month, 2), Pad(day, 2);
    var s := DateStr(year, month, day);
    assert s == y + "-" + m + "-" + d;
    assert s[..4] == y && s[5..7] == m && s[8..] == d;
    ValueOfPad(year, 4);
    ValueOfPad(month, 2);
    ValueOfPad(day, 2);
  }

  /** Different dates give different date strings. */
  lemma {:induction false} DateStrInjective(y1: nat, m1: nat, d1: nat, y2: nat, m2: nat, d2: nat)
    requires 1 <= y1 <= 9999 && 1 <= m1 <= 12 && 1 <= d1 <= 31
    requires 1 <= y2 <= 9999 && 1 <= m2 <= 12 && 1 <= d2 <= 31
    ensures DateStr(y1, m1, d1) == DateStr(y2, m2, d2) <==> y1 == y2 && m1 == m2 && d1 == d2
  {
    DateStrRoundTrip(y1, m1, d1);
    DateStrRoundTrip(y2, m2, d2);
  }

  /** The transcript's name starts with the recording's root and ends in
      "_YYYY-MM-DD.txt". */
  lemma {:induction false} OutputNameShape(file: string, year: nat, month: nat, day: nat)
    requires 1 <= year <= 9999 && 1 <= month <= 12 && 1 <= day <= 31
    ensures |OutputName(file, year, month, day)| == |Stem(file)| + 15
    ensures OutputName(file, year, month, day)[..|Stem(file)|] == Stem(file)
    ensures OutputName(file, year, month, day)[|Stem(file)|..] == "_" + DateStr(year, month, day) + ".txt"
  {
    DateStrRoundTrip(year, month, day);
    Concat4(Stem(file), "_", DateStr(year, month, day), ".txt");
  }

  lemma {:induction false} Concat4(a: string, b: string, c: string, d: string)
    ensures (a + b + c + d)[..|a|] == a
    ensures (a + b + c + d)[|a|..] == b + c + d
  {
    assert a + b + c + d == a + (b + c + d);
  }

  /** The transcript's own extension is ".txt", and its root is the
      recording's root with the date appended. */
  lemma {:induction false} OutputNameExt(file: string, year: nat, month: nat, day: nat)
    requires 1 <= year <= 9999 && 1 <= month <= 12 && 1 <= day <= 31
    ensures Ext(OutputName(file, year, month, day)) == ".txt"
    ensures Stem(OutputName(file, year, month, day)) == Stem(file) + "_" + DateStr(year, month, day)
  {
    var date := DateStr(year, month, day);
    var n := OutputName(file, year, month, day);
    var d := |n| - 4;
    DateStrRoundTrip(year, month, day);
    assert date[8..][1] == date[9];
    assert n == (Stem(file) + "_" + date) + ".txt";
    assert n[d..] == ".txt";
    assert n[d - 1] == date[9];
    assert n[d - 1] != '.' && '/' !in n[d - 1..d];
    assert ExtensionAt(n, d);
    SplitExtComplete(n, d);
  }

  /** Two recordings get the same transcript name on the same day exactly
      when their roots agree, whatever their extensions: "talk.mp3" and
      "talk.wav" write to the same file. */
  lemma {:induction false} OutputNameCollides(f1: string, f2: string, year: nat, month: nat, day: nat)
    requires 1 <= year <= 9999 && 1 <= month <= 12 && 1 <= day <= 31
    ensures OutputName(f1, year, month, day) == OutputName(f2, year, month, day) <==> Stem(f1) == Stem(f2)
  {
    OutputNameShape(f1, year, month, day);
    OutputNameShape(f2, year, month, day);
  }

  /** "talk.mp3" has root "talk" and extension ".mp3". */
  lemma {:induction false} SplitExtExample()
    ensures SplitExt("talk.mp3") == ("talk", ".mp3")
  {
    var a := "talk.mp3";
    assert a[0] == 't' && a[..4] == "talk" && a[4] == '.';
    assert a[4..] == ".mp3";
    assert '/' !in a[0..4];
    assert ExtensionAt(a, 4);
    SplitExtComplete(a, 4);
  }

  /** Segment upload names differ exactly when the segment indices do. */
  lemma {:induction false} PartNameInjective(file: string, i: nat, j: nat)
    ensures PartName(file, i) == PartName(file, j) <==> i == j
  {
    var prefix := file + ".part";
    if PartName(file, i) == PartName(file, j) {
      assert ToDigits(i) == PartName(file, i)[|prefix|..];
      assert ToDigits(j) == PartName(file, j)[|prefix|..];
      ToDigitsInjective(i, j);
    }
  }

  /** The label is the beginning of the identifier. */
  lemma {:induction false} LabelPrefixOfCustomId(file: string)
    ensures Label(file) <= CustomId(file)
  {
  }

  /** Two files get the same button identifier exactly when they are the
      same file or agree on their first 100 characters, both being at least
      that long. */
  lemma {:induction false} CustomIdCollides(a: string, b: string)
    ensures CustomId(a) == CustomId(b) <==>
      a == b || (|a| >= CustomIdLimit && |b| >= CustomIdLimit && a[..CustomIdLimit] == b[..CustomIdLimit])
  {
  }
}
