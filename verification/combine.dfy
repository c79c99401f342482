/** Collecting the service's replies into one transcript: the texts of the
    successful replies joined by newlines in segment order, and a failure
    notice, numbered from 1, for every other reply. */
module Combine {
  import opened Wrappers
  import opened Digits
  import opened Strings

  /** The transcription service's reply for one segment: the HTTP status,
      the "text" field of the JSON body when present, and the body as text. */
  datatype Reply = Reply(status: int, text: Option<string>, body: string)

  predicate Ok(r: Reply)
  {
    r.status == 200
  }

  /** The positions of the successful replies, in order. */
  function OkIndices(replies: seq<Reply>): (ix: seq<nat>)
    ensures forall k :: 0 <= k < |ix| ==> ix[k] < |replies| && Ok(replies[ix[k]])
    ensures forall k, l :: 0 <= k < l < |ix| ==> ix[k] < ix[l]
  {
    if |replies| == 0 then []
    else
      var n := |replies| - 1;
      OkIndices(replies[..n]) + if Ok(replies[n]) then [n] else []
  }

  /** The texts collected from the successful replies; a reply without a
      "text" field contributes the empty string. */
  function Transcripts(replies: seq<Reply>): (ts: seq<string>)
    ensures |ts| == |OkIndices(replies)|
  {
    if |replies| == 0 then []
    else
      var n := |replies| - 1;
      Transcripts(replies[..n]) + if Ok(replies[n]) then [replies[n].text.GetOr("")] else []
  }

  /** The positions of the failed replies, in order. */
  function FailIndices(replies: seq<Reply>): (ix: seq<nat>)
    ensures forall k :: 0 <= k < |ix| ==> ix[k] < |replies| && !Ok(replies[ix[k]])
    ensures forall k, l :: 0 <= k < l < |ix| ==> ix[k] < ix[l]
  {
    if |replies| == 0 then []
    else
      var n := |replies| - 1;
      FailIndices(replies[..n]) + if Ok(replies[n]) then [] else [n]
  }

  /** The message sent for a failed segment; `segment` counts from 1. */
  function Notice(segment: nat, body: string): string
  {
    "Segment " + ToDigits(segment) + " transcription failed: " + body
  }

  /** The failure notices, in segment order. */
  function Notices(replies: seq<Reply>): (ns: seq<string>)
    ensures |ns| + |OkIndices(replies)| == |replies|
  {
    if |replies| == 0 then []
    else
      var n := |replies| - 1;
      Notices(replies[..n]) + if Ok(replies[n]) then [] else [Notice(n + 1, replies[n].body)]
  }

  /** Python's `"\n".join`. */
  function Join(xs: seq<string>): (s: string)
    ensures |xs| == 1 ==> s == xs[0]
  {
    if |xs| == 0 then ""
    else if |xs| == 1 then xs[0]
    else Join(xs[..|xs| - 1]) + "\n" + xs[|xs| - 1]
  }

  /** Python's `s.split("\n")`: the pieces between newlines, at least one. */
  function Split(s: string): (parts: seq<string>)
    ensures |parts| >= 1
    decreases |s|
  {
    var k := LastIndexOf(s, '\n');
    if k < 0 then [s] else Split(s[..k]) + [s[k + 1..]]
  }

  /** The transcript written to the output file. */
  function CombinedText(replies: seq<Reply>): string
  {
    Join(Transcripts(replies))
  }
}

module CombineFacts {
  import opened Wrappers
  import opened Digits
  import opened Strings
  import opened Combine

  /** Replies are processed one after another: the texts of a concatenation
      are the texts of each part. */
  lemma {:induction false} TranscriptsAppend(a: seq<Reply>, b: seq<Reply>)
    ensures Transcripts(a + b) == Transcripts(a) + Transcripts(b)
    decreases |b|
  {
    if |b| > 0 {
      var n := |b| - 1;
      assert (a + b)[..|a + b| - 1] == a + b[..n];
      TranscriptsAppend(a, b[..n]);
    } else {
      assert a + b == a;
    }
  }

  /** No successful reply is missed. */
  lemma {:induction false} OkIndicesComplete(replies: seq<Reply>, i: nat)
    requires i < |replies| && Ok(replies[i])
    ensures i in OkIndices(replies)
    decreases |replies|
  {
    var n := |replies| - 1;
    if i < n {
      OkIndicesComplete(replies[..n], i);
    }
  }

  /** The collected texts are, in order, those of the successful replies,
      with the empty string for a reply that has no "text" field. */
  lemma {:induction false} TranscriptsSpec(replies: seq<Reply>)
    ensures forall k :: 0 <= k < |Transcripts(replies)| ==>
      Transcripts(replies)[k] == replies[OkIndices(replies)[k]].text.GetOr("")
    decreases |replies|
  {
    if |replies| > 0 {
      var n := |replies| - 1;
      TranscriptsSpec(replies[..n]);
    }
  }

  /** No failed reply is missed. */
  lemma {:induction false} FailIndicesComplete(replies: seq<Reply>, i: nat)
    requires i < |replies| && !Ok(replies[i])
    ensures i in FailIndices(replies)
    decreases |replies|
  {
    var n := |replies| - 1;
    if i < n {
      FailIndicesComplete(replies[..n], i);
    }
  }

  /** There are as many notices as failed replies. */
  lemma {:induction false} NoticesLength(replies: seq<Reply>)
    ensures |Notices(replies)| == |FailIndices(replies)|
    decreases |replies|
  {
    if |replies| > 0 {
      NoticesLength(replies[..|replies| - 1]);
    }
  }

  /** The `k`-th notice is that of the `k`-th failed reply. */
  lemma {:induction false} NoticeAt(replies: seq<Reply>, k: nat)
    requires k < |FailIndices(replies)|
    ensures |Notices(replies)| == |FailIndices(replies)|
    ensures Notices(replies)[k] == Notice(FailIndices(replies)[k] + 1, replies[FailIndices(replies)[k]].body)
    decreases |replies|
  {
    NoticesLength(replies);
    var n := |replies| - 1;
    var pre := replies[..n];
    NoticesLength(pre);
    if k < |FailIndices(pre)| {
      NoticeAt(pre, k);
      assert Notices(replies)[k] == Notices(pre)[k];
      assert FailIndices(replies)[k] == FailIndices(pre)[k];
    }
  }

  /** The notices are, in segment order, those of the failed replies, each
      numbered with its segment counted from 1 and carrying the reply's body. */
  lemma NoticesSpec(replies: seq<Reply>)
    ensures |Notices(replies)| == |FailIndices(replies)|
    ensures forall k :: 0 <= k < |Notices(replies)| ==>
      Notices(replies)[k] == Notice(FailIndices(replies)[k] + 1, replies[FailIndices(replies)[k]].body)
  {
    NoticesLength(replies);
    forall k | 0 <= k < |Notices(replies)|
      ensures Notices(replies)[k] == Notice(FailIndices(replies)[k] + 1, replies[FailIndices(replies)[k]].body)
    {
      NoticeAt(replies, k);
    }
  }

  /** Every failed reply gets the notice for its own segment. */
  lemma {:induction false} FailedReplyNoticed(replies: seq<Reply>, i: nat)
    requires i < |replies| && !Ok(replies[i])
    ensures Notice(i + 1, replies[i].body) in Notices(replies)
  {
    FailIndicesComplete(replies, i);
    NoticesSpec(replies);
    var k :| 0 <= k < |FailIndices(replies)| && FailIndices(replies)[k] == i;
    assert Notices(replies)[k] == Notice(i + 1, replies[i].body);
  }

  /** Every reply is accounted for exactly once: as a text or as a notice. */
  lemma {:induction false} EveryReplyReported(replies: seq<Reply>)
    ensures |Transcripts(replies)| + |Notices(replies)| == |replies|
  {
  }

  /** Splitting undoes joining: the pieces of any string joined back by
      newlines give the string. */
  lemma {:induction false} JoinSplit(s: string)
    ensures Join(Split(s)) == s
    decreases |s|
  {
    var k := LastIndexOf(s, '\n');
    if k >= 0 {
      JoinSplit(s[..k]);
      var parts := Split(s[..k]);
      var all := parts + [s[k + 1..]];
      assert all[..|all| - 1] == parts;
      assert s == s[..k] + "\n" + s[k + 1..];
    }
  }

  /** The newline just before a newline-free tail is the last one. */
  lemma {:induction false} LastNewlineBeforeTail(j: string, x: string)
    requires '\n' !in x
    ensures LastIndexOf(j + "\n" + x, '\n') == |j|
  {
    var s := j + "\n" + x;
    var k := LastIndexOf(s, '\n');
    assert s[|j|] == '\n';
  }

  /** Joining undoes splitting for a non-empty list of newline-free texts. */
  lemma {:induction false} SplitJoin(xs: seq<string>)
    requires |xs| >= 1
    requires forall k :: 0 <= k < |xs| ==> '\n' !in xs[k]
    ensures Split(Join(xs)) == xs
    decreases |xs|
  {
    if |xs| > 1 {
      var n := |xs| - 1;
      var j := Join(xs[..n]);
      var s := j + "\n" + xs[n];
      LastNewlineBeforeTail(j, xs[n]);
      assert s[..|j|] == j;
      assert s[|j| + 1..] == xs[n];
      SplitJoin(xs[..n]);
      assert xs == xs[..n] + [xs[n]];
    } else {
      assert LastIndexOf(xs[0], '\n') < 0;
    }
  }

  /** No piece of a split holds a newline. */
  lemma {:induction false} SplitPiecesHaveNoNewline(s: string, i: nat)
    requires i < |Split(s)|
    ensures '\n' !in Split(s)[i]
    decreases |s|
  {
    var k := LastIndexOf(s, '\n');
    if k >= 0 {
      var parts := Split(s[..k]);
      if i < |parts| {
        SplitPiecesHaveNoNewline(s[..k], i);
      } else {
        var tail := s[k + 1..];
        forall j | 0 <= j < |tail|
          ensures tail[j] != '\n'
        {
          assert tail[j] == s[k + 1 + j];
        }
      }
    }
  }

  /** The transcript is empty exactly when no text was collected, or the one
      text collected was empty. */
  lemma {:induction false} JoinEmpty(xs: seq<string>)
    ensures Join(xs) == "" <==> |xs| == 0 || (|xs| == 1 && xs[0] == "")
  {
    if |xs| > 1 {
      assert |Join(xs)| >= 1;
    }
  }

  /** The transcript is empty exactly when no segment succeeded, or the one
      segment that did brought an empty (or no) text. */
  lemma {:induction false} CombinedTextEmpty(replies: seq<Reply>)
    ensures CombinedText(replies) == "" <==>
      |OkIndices(replies)| == 0 ||
      (|OkIndices(replies)| == 1 && replies[OkIndices(replies)[0]].text.GetOr("") == "")
  {
    TranscriptsSpec(replies);
    JoinEmpty(Transcripts(replies));
  }

  /** A failure notice names its segment and body unambiguously: the
      segment number ends at the first space after "Segment ". */
  lemma {:induction false} NoticeInjective(i: nat, b: string, j: nat, c: string)
    ensures Notice(i, b) == Notice(j, c) <==> i == j && b == c
  {
    if Notice(i, b) == Notice(j, c) {
      var t := "transcription failed: ";
      NoticeParts(i, b);
      NoticeParts(j, c);
      DropPrefix("Segment ", ToDigits(i) + " " + (t + b), ToDigits(j) + " " + (t + c));
      DigitsBeforeSpace(ToDigits(i), t + b, ToDigits(j), t + c);
      DropPrefix(t, b, c);
      ToDigitsInjective(i, j);
    }
  }

  /** A notice is "Segment ", the number, a space, then the rest of the
      message and the body. */
  lemma {:induction false} NoticeParts(i: nat, body: string)
    ensures Notice(i, body) == "Segment " + (ToDigits(i) + " " + ("transcription failed: " + body))
  {
    assert " transcription failed: " == " " + "transcription failed: ";
  }

  lemma DropPrefix(p: string, x: string, y: string)
    requires p + x == p + y
    ensures x == y
  {
    assert x == (p + x)[|p|..];
  }

  /** Two digit strings each followed by a space split a string alike. */
  lemma {:induction false} DigitsBeforeSpace(a: string, r: string, b: string, q: string)
    requires AllDigits(a) && AllDigits(b) && a + " " + r == b + " " + q
    ensures a == b && r == q
  {
    var s := a + " " + r;
    assert s[|a|] == ' ' && s[|b|] == ' ';
    assert |a| == |b|;
    assert a == s[..|a|] && b == s[..|b|];
    assert r == s[|a| + 1..] && q == s[|b| + 1..];
  }

  /** When every segment failed the transcript is empty. */
  lemma {:induction false} AllFailedGivesEmpty(replies: seq<Reply>)
    requires forall i :: 0 <= i < |replies| ==> !Ok(replies[i])
    ensures CombinedText(replies) == ""
    ensures |Notices(replies)| == |replies|
    decreases |replies|
  {
    if |replies| > 0 {
      var n := |replies| - 1;
      AllFailedGivesEmpty(replies[..n]);
    }
  }

  /** When the collected texts hold no newline and at least one segment
      succeeded, the transcript's lines are exactly those texts, in segment
      order, one per successful segment: failed segments leave no line. */
  lemma {:induction false} LinesAreTexts(replies: seq<Reply>)
    requires |OkIndices(replies)| >= 1
    requires forall i :: 0 <= i < |replies| && Ok(replies[i]) ==> '\n' !in replies[i].text.GetOr("")
    ensures |Split(CombinedText(replies))| == |OkIndices(replies)|
    ensures forall k :: 0 <= k < |OkIndices(replies)| ==>
      Split(CombinedText(replies))[k] == replies[OkIndices(replies)[k]].text.GetOr("")
  {
    var ts := Transcripts(replies);
    TranscriptsSpec(replies);
    SplitJoin(ts);
  }

  /** A successful reply without a "text" field still yields an (empty)
      line, while a failed reply yields no line, only a notice numbered from
      1: texts "a", none, a failure, "b" give "a", "", "b" on three lines. */
  lemma {:induction false} MissingTextKeepsLine(r0: Reply, r1: Reply, r2: Reply, r3: Reply)
    requires Ok(r0) && r0.text == Some("a")
    requires Ok(r1) && r1.text == None
    requires !Ok(r2)
    requires Ok(r3) && r3.text == Some("b")
    ensures CombinedText([r0, r1, r2, r3]) == "a\n\nb"
    ensures Notices([r0, r1, r2, r3]) == ["Segment 3 transcription failed: " + r2.body]
  {
    ExampleTexts(r0, r1, r2, r3);
    ExampleJoin();
    ExampleNotices(r0, r1, r2, r3);
    NoticeNumber(r2.body);
  }

  lemma {:induction false} ExampleTexts(r0: Reply, r1: Reply, r2: Reply, r3: Reply)
    requires Ok(r0) && r0.text == Some("a")
    requires Ok(r1) && r1.text == None
    requires !Ok(r2)
    requires Ok(r3) && r3.text == Some("b")
    ensures Transcripts([r0, r1, r2, r3]) == ["a", "", "b"]
  {
    var rs := [r0, r1, r2, r3];
    assert rs[..3][..2][..1][..0] == [];
    assert Transcripts(rs[..1]) == ["a"];
    assert rs[..3][..2][..1] == rs[..1];
    assert Transcripts(rs[..2]) == ["a", ""];
    assert rs[..3][..2] == rs[..2];
    assert Transcripts(rs[..3]) == ["a", ""];
  }

  lemma {:induction false} ExampleJoin()
    ensures Join(["a", "", "b"]) == "a\n\nb"
  {
    assert ["a", "", "b"][..2] == ["a", ""] && ["a", ""][..1] == ["a"];
  }

  lemma {:induction false} ExampleNotices(r0: Reply, r1: Reply, r2: Reply, r3: Reply)
    requires Ok(r0) && Ok(r1) && !Ok(r2) && Ok(r3)
    ensures Notices([r0, r1, r2, r3]) == [Notice(3, r2.body)]
  {
    var rs := [r0, r1, r2, r3];
    assert rs[..3][..2][..1][..0] == [];
    assert Notices(rs[..1]) == [];
    assert rs[..3][..2][..1] == rs[..1];
    assert Notices(rs[..2]) == [];
    assert rs[..3][..2] == rs[..2];
    assert Notices(rs[..3]) == [Notice(3, r2.body)];
  }

  lemma {:induction false} NoticeNumber(body: string)
    ensures Notice(3, body) == "Segment 3 transcription failed: " + body
  {
    assert DigitChar(3) == '3';
    assert ToDigits(3) == "3";
  }
}
