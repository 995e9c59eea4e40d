/** The range collapse of `initial_transcription`: consecutive Whisper
    segments with identical raw text become one range from the first start
    to the last end. Every range but the last has its text stripped. */
module Transcription {
  import opened Common
  import opened Records
  import opened MaximalRuns

  /** Two neighbouring segments belong to one range when their raw texts
      are identical. */
  predicate SameText(a: Segment, b: Segment)
  {
    a.text == b.text
  }

  /** The loop over the remaining segments with the current range `cur`.
      A change of text emits the stripped current range; the range still
      open at the end is emitted with its raw text. */
  function CollapseFrom(rest: seq<Segment>, cur: Segment): (r: seq<Segment>)
    ensures 1 <= |r| <= |rest| + 1
    decreases |rest|
  {
    if rest == [] then [cur]
    else if rest[0].text != cur.text then
      [cur.(text := Strip(cur.text))] + CollapseFrom(rest[1..], rest[0])
    else
      CollapseFrom(rest[1..], cur.(end := rest[0].end))
  }

  /** `initial_transcription(video_path)`; `whisper` is the model's list of
      segments, or `None` when transcription raised. */
  function InitialTranscription(whisper: Option<seq<Segment>>): (r: Option<seq<Segment>>)
    ensures whisper.None? <==> r.None?
    ensures whisper.Some? ==> |r.value| <= |whisper.value|
    ensures whisper.Some? ==> (whisper.value == [] <==> r.value == [])
  {
    match whisper
    case None => None
    case Some(segs) =>
      if segs == [] then Some([])
      else Some(CollapseFrom(segs[1..], segs[0]))
  }

  /** The range a run of segments stands for: its first start, its last end
      and its (common) raw text. */
  function Range(p: seq<Segment>): Segment
    requires |p| > 0
  {
    Segment(p[0].start, Last(p).end, p[0].text)
  }

  /** The ranges of a sequence of runs, stripped except for the last. */
  function Ranges(runs: seq<seq<Segment>>): (r: seq<Segment>)
    requires forall k :: 0 <= k < |runs| ==> |runs[k]| > 0
    ensures |r| == |runs|
    ensures forall k :: 0 <= k < |runs| - 1 ==>
              r[k] == Range(runs[k]).(text := Strip(runs[k][0].text))
    ensures runs != [] ==> Last(r) == Range(Last(runs))
  {
    if runs == [] then []
    else if |runs| == 1 then [Range(runs[0])]
    else [Range(runs[0]).(text := Strip(runs[0][0].text))] + Ranges(runs[1..])
  }

  lemma {:induction false} ChainedSameText(p: seq<Segment>)
    requires Chained(p, SameText)
    ensures forall i :: 0 <= i < |p| ==> p[i].text == p[0].text
  {
    if |p| > 1 {
      ChainedSameText(p[..|p| - 1]);
      assert SameText(p[|p| - 2], p[|p| - 1]);
    }
  }

  /** The ranges still to be produced once the open range holds run prefix
      `p` and `rest` is unread. */
  function Expected(p: seq<Segment>, rest: seq<Segment>): seq<Segment>
    requires |p| > 0
  {
    var n := ChainLen(Last(p), rest, SameText);
    Ranges([p + rest[..n]] + Runs(rest[n..], SameText))
  }

  lemma ExpectedMerge(p: seq<Segment>, rest: seq<Segment>)
    requires |p| > 0 && rest != [] && SameText(Last(p), rest[0])
    ensures Expected(p, rest) == Expected(p + [rest[0]], rest[1..])
  {
    ChainMerge(p, rest, SameText);
  }

  lemma ExpectedFlush(p: seq<Segment>, rest: seq<Segment>)
    requires |p| > 0 && rest != [] && !SameText(Last(p), rest[0])
    ensures Expected(p, rest)
         == [Range(p).(text := Strip(p[0].text))] + Expected([rest[0]], rest[1..])
  {
    ChainFlush(p, rest, SameText);
    RunsUnfold(rest, SameText);
    assert Last([rest[0]]) == rest[0];
    var runs := [p] + Runs(rest, SameText);
    assert runs[1..] == Runs(rest, SameText);
  }

  lemma {:induction false} CollapseFromRuns(p: seq<Segment>, rest: seq<Segment>)
    requires |p| > 0 && Chained(p, SameText)
    ensures CollapseFrom(rest, Range(p)) == Expected(p, rest)
    decreases |rest|
  {
    ChainedSameText(p);
    if rest == [] {
      assert p + rest[..0] == p;
    } else {
      var e := rest[0];
      if SameText(Last(p), e) {
        assert Chained(p + [e], SameText);
        assert Range(p + [e]) == Range(p).(end := e.end);
        CollapseFromRuns(p + [e], rest[1..]);
        ExpectedMerge(p, rest);
      } else {
        assert Range([e]) == e;
        CollapseFromRuns([e], rest[1..]);
        ExpectedFlush(p, rest);
      }
    }
  }

  /** The collapse produces one range per maximal run of identical raw
      text, every range but the last stripped. */
  lemma CollapseIsRunRanges(segs: seq<Segment>)
    ensures InitialTranscription(Some(segs)) == Some(Ranges(Runs(segs, SameText)))
  {
    if segs != [] {
      var e := segs[0];
      assert Range([e]) == e;
      CollapseFromRuns([e], segs[1..]);
      RunsUnfold(segs, SameText);
    }
  }

  /** Each range spans exactly its run, and all the segments of the run
      share the text the range carries (stripped unless it is the last);
      the raw texts of neighbouring runs differ, and the ranges together
      span the first start to the last end. */
  lemma CollapseSpec(segs: seq<Segment>)
    requires segs != []
    ensures var r := InitialTranscription(Some(segs)).value;
            var runs: seq<seq<Segment>> := Runs(segs, SameText);
            && |r| == |runs|
            && Flatten(runs) == segs
            && r[0].start == segs[0].start
            && Last(r).end == Last(segs).end
            && (forall k :: 0 <= k < |r| ==>
                  r[k].start == runs[k][0].start && r[k].end == Last(runs[k]).end
                  && (forall i :: 0 <= i < |runs[k]| ==> runs[k][i].text == runs[k][0].text)
                  && r[k].text == (if k == |r| - 1 then runs[k][0].text
                                   else Strip(runs[k][0].text)))
            && (forall k :: 0 < k < |r| ==> runs[k - 1][0].text != runs[k][0].text)
  {
    var runs: seq<seq<Segment>> := Runs(segs, SameText);
    CollapseIsRunRanges(segs);
    RunsPartition(segs, SameText);
    RunsHead(segs, SameText);
    RunsLast(segs, SameText);
    RunsChained(segs, SameText);
    RunsMaximal(segs, SameText);
    forall k | 0 <= k < |runs|
      ensures forall i :: 0 <= i < |runs[k]| ==> runs[k][i].text == runs[k][0].text
    {
      ChainedSameText(runs[k]);
    }
    forall k | 0 < k < |runs|
      ensures runs[k - 1][0].text != runs[k][0].text
    {
      assert !SameText(Last(runs[k - 1]), runs[k][0]);
    }
  }

  /** A hallucinated line `b` repeated three times after a line `a`
      becomes one range ending where the third repeat ends; the first range
      is stripped, the final one keeps its raw text. */
  lemma RepeatExample(a: string, b: string)
    requires a != b
    ensures InitialTranscription(Some([Segment(0.0, 1.0, a), Segment(1.0, 2.0, b),
                                       Segment(2.0, 3.0, b), Segment(3.0, 4.0, b)]))
         == Some([Segment(0.0, 1.0, Strip(a)), Segment(1.0, 4.0, b)])
  {
    var segs := [Segment(0.0, 1.0, a), Segment(1.0, 2.0, b),
                 Segment(2.0, 3.0, b), Segment(3.0, 4.0, b)];
    var last := [Segment(3.0, 4.0, b)];
    assert CollapseFrom(last, Segment(1.0, 3.0, b)) == [Segment(1.0, 4.0, b)] by {
      assert last[1..] == [];
    }
    assert segs[1..][1..] == [Segment(2.0, 3.0, b)] + last;
    assert segs[1..][1..][1..] == last;
    assert CollapseFrom(segs[1..][1..], Segment(1.0, 2.0, b)) == [Segment(1.0, 4.0, b)];
    assert CollapseFrom(segs[1..], segs[0])
        == [Segment(0.0, 1.0, Strip(a))] + CollapseFrom(segs[1..][1..], Segment(1.0, 2.0, b));
    assert CollapseFrom(segs[1..], segs[0])
        == [Segment(0.0, 1.0, Strip(a)), Segment(1.0, 4.0, b)];
    assert InitialTranscription(Some(segs)) == Some(CollapseFrom(segs[1..], segs[0]));
  }
}
