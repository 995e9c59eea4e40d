/** The run compressor `compress_transcript`, in its two versions: the
    current one picks the speaker of the longest sub-entry and rounds every
    duration to hundredths; the older one only stretches the end of the
    first entry of each run. Both are greedy scans; their reference
    definition is "summarise every maximal run of contiguous entries with
    identical text". */
module Compress {
  import opened Common
  import opened Records
  import opened MaximalRuns

  /** `entry` may be merged into a run that currently ends with `prev`:
      identical text, and it starts exactly where `prev` ends. */
  predicate Mergeable(prev: Slice, entry: Slice)
  {
    entry.text == prev.text && entry.start == prev.end
  }

  /** Sum of the durations, accumulated left to right. */
  function SumDurations(p: seq<Slice>): real
  {
    if p == [] then 0.0 else SumDurations(p[..|p| - 1]) + p[|p| - 1].duration
  }

  /** The index of the first entry with the largest duration. */
  function FirstLongest(p: seq<Slice>): (i: nat)
    requires |p| > 0
    ensures i < |p|
    ensures forall j :: 0 <= j < |p| ==> p[j].duration <= p[i].duration
    ensures forall j :: 0 <= j < i ==> p[j].duration < p[i].duration
  {
    if |p| == 1 then 0
    else
      var i := FirstLongest(p[..|p| - 1]);
      if p[|p| - 1].duration > p[i].duration then |p| - 1 else i
  }

  /** The entry the current compressor emits for one run: first start, last
      end, the shared text, the speaker of the first longest entry, and the
      rounded total duration. */
  function Summary(p: seq<Slice>): Slice
    requires |p| > 0
  {
    Slice(p[0].start, Last(p).end, p[0].text, p[FirstLongest(p)].speaker,
          Round2(SumDurations(p)))
  }

  function Summaries(runs: seq<seq<Slice>>): (r: seq<Slice>)
    requires forall k :: 0 <= k < |runs| ==> |runs[k]| > 0
    ensures |r| == |runs|
  {
    if runs == [] then [] else [Summary(runs[0])] + Summaries(runs[1..])
  }

  /** The `k`-th entry emitted is the summary of the `k`-th run. */
  lemma {:induction false} SummariesAt(runs: seq<seq<Slice>>)
    requires forall k :: 0 <= k < |runs| ==> |runs[k]| > 0
    ensures forall k :: 0 <= k < |runs| ==> Summaries(runs)[k] == Summary(runs[k])
  {
    if runs != [] {
      SummariesAt(runs[1..]);
      forall k | 0 < k < |runs|
        ensures Summaries(runs)[k] == Summary(runs[k])
      {
        assert runs[1..][k - 1] == runs[k];
      }
    }
  }

  // ----- the current compressor (mst/steps/helpers.py) -----

  /** The loop of `compress_transcript` with the running entry `current`
      and the longest sub-duration seen in its run, `longest`. */
  function CompressFrom(rest: seq<Slice>, current: Slice, longest: real): (r: seq<Slice>)
    ensures |r| >= 1
    decreases |rest|
  {
    if rest == [] then [current.(duration := Round2(current.duration))]
    else
      var entry := rest[0];
      if entry.text == current.text && entry.start == current.end then
        var merged := current.(end := entry.end, duration := current.duration + entry.duration);
        if entry.duration > longest then
          CompressFrom(rest[1..], merged.(speaker := entry.speaker), entry.duration)
        else
          CompressFrom(rest[1..], merged, longest)
      else
        [current.(duration := Round2(current.duration))] + CompressFrom(rest[1..], entry, entry.duration)
  }

  /** `compress_transcript(video_path, entries)`. */
  function CompressTranscript(entries: seq<Slice>): (r: seq<Slice>)
    ensures entries == [] <==> r == []
  {
    if entries == [] then [] else CompressFrom(entries[1..], entries[0], entries[0].duration)
  }

  /** The running entry of a run `p` before its duration is rounded. */
  function Running(p: seq<Slice>): Slice
    requires |p| > 0
  {
    Slice(p[0].start, Last(p).end, p[0].text, p[FirstLongest(p)].speaker, SumDurations(p))
  }

  lemma {:induction false} ChainedSameText(p: seq<Slice>)
    requires Chained(p, Mergeable)
    ensures forall i :: 0 <= i < |p| ==> p[i].text == p[0].text
  {
    if |p| > 1 {
      ChainedSameText(p[..|p| - 1]);
      assert p[|p| - 1].text == p[|p| - 2].text;
    }
  }

  lemma RunningSingle(e: Slice)
    ensures Running([e]) == e
    ensures [e][FirstLongest([e])].duration == e.duration
  {
    assert [e][..0] == [];
    assert SumDurations([e]) == e.duration;
    assert FirstLongest([e]) == 0;
    assert Last([e]) == e;
  }

  /** Merging `e` into the running entry of `p` gives the running entry of
      `p + [e]`. */
  lemma {:induction false} MergeStep(p: seq<Slice>, rest: seq<Slice>)
    requires |p| > 0 && Chained(p, Mergeable) && rest != [] && Mergeable(Last(p), rest[0])
    ensures CompressFrom(rest, Running(p), p[FirstLongest(p)].duration)
         == CompressFrom(rest[1..], Running(p + [rest[0]]),
                         (p + [rest[0]])[FirstLongest(p + [rest[0]])].duration)
  {
    var e := rest[0];
    ChainedSameText(p);
    assert (p + [e])[..|p|] == p;
    assert e.text == Running(p).text && e.start == Running(p).end;
  }

  /** An entry that cannot be merged flushes the summary of `p`. */
  lemma {:induction false} FlushStep(p: seq<Slice>, rest: seq<Slice>)
    requires |p| > 0 && Chained(p, Mergeable) && rest != [] && !Mergeable(Last(p), rest[0])
    ensures CompressFrom(rest, Running(p), p[FirstLongest(p)].duration)
         == [Summary(p)] + CompressFrom(rest[1..], Running([rest[0]]),
                                        [rest[0]][FirstLongest([rest[0]])].duration)
  {
    ChainedSameText(p);
    RunningSingle(rest[0]);
  }

  /** What the loop should emit from the running entry of run `p`: the
      summary of `p` extended by the entries of `rest` that continue it,
      then the summaries of the remaining runs. */
  function Expected(p: seq<Slice>, rest: seq<Slice>): seq<Slice>
    requires |p| > 0
  {
    var n := ChainLen(Last(p), rest, Mergeable);
    [Summary(p + rest[..n])] + Summaries(Runs(rest[n..], Mergeable))
  }

  lemma ExpectedMerge(p: seq<Slice>, rest: seq<Slice>)
    requires |p| > 0 && rest != [] && Mergeable(Last(p), rest[0])
    ensures Expected(p, rest) == Expected(p + [rest[0]], rest[1..])
  {
    ChainMerge(p, rest, Mergeable);
  }

  lemma ExpectedFlush(p: seq<Slice>, rest: seq<Slice>)
    requires |p| > 0 && rest != [] && !Mergeable(Last(p), rest[0])
    ensures Expected(p, rest) == [Summary(p)] + Expected([rest[0]], rest[1..])
  {
    ChainFlush(p, rest, Mergeable);
    RunsUnfold(rest, Mergeable);
    assert Last([rest[0]]) == rest[0];
  }

  /** The loop, started on the running entry of a run `p`, emits what
      `Expected` describes. */
  lemma {:induction false} CompressFromRuns(p: seq<Slice>, rest: seq<Slice>)
    requires |p| > 0 && Chained(p, Mergeable)
    ensures CompressFrom(rest, Running(p), p[FirstLongest(p)].duration) == Expected(p, rest)
    decreases |rest|
  {
    if rest == [] {
      assert p + rest[..0] == p;
    } else {
      var e := rest[0];
      if Mergeable(Last(p), e) {
        assert Chained(p + [e], Mergeable);
        MergeStep(p, rest);
        CompressFromRuns(p + [e], rest[1..]);
        ExpectedMerge(p, rest);
      } else {
        FlushStep(p, rest);
        RunningSingle(e);
        CompressFromRuns([e], rest[1..]);
        ExpectedFlush(p, rest);
      }
    }
  }

  lemma SummariesCons(p: seq<Slice>, runs: seq<seq<Slice>>)
    requires |p| > 0 && forall k :: 0 <= k < |runs| ==> |runs[k]| > 0
    ensures Summaries([p] + runs) == [Summary(p)] + Summaries(runs)
  {
    assert ([p] + runs)[1..] == runs;
  }

  /** The compressor emits exactly one summary per maximal run. */
  lemma CompressIsRunSummaries(entries: seq<Slice>)
    ensures CompressTranscript(entries) == Summaries(Runs(entries, Mergeable))
  {
    if entries != [] {
      var e := entries[0];
      var m := ChainLen(e, entries[1..], Mergeable);
      RunningSingle(e);
      assert Last([e]) == e;
      CompressFromRuns([e], entries[1..]);
      RunsUnfold(entries, Mergeable);
      SummariesCons(entries[..1 + m], Runs(entries[1 + m..], Mergeable));
    }
  }

  /** Compression keeps at least one and at most all entries, and the span
      from the first start to the last end. */
  lemma CompressSizeAndSpan(entries: seq<Slice>)
    requires entries != []
    ensures var r := CompressTranscript(entries);
            && 1 <= |r| <= |entries|
            && r[0].start == entries[0].start
            && Last(r).end == Last(entries).end
  {
    var runs := Runs(entries, Mergeable);
    var r := CompressTranscript(entries);
    CompressIsRunSummaries(entries);
    SummariesAt(runs);
    RunsHead(entries, Mergeable);
    RunsLast(entries, Mergeable);
    assert r[0] == Summary(runs[0]);
    assert Last(r) == Summary(Last(runs));
  }

  /** No two neighbours of the output could be merged again. */
  lemma CompressLeavesNothingMergeable(entries: seq<Slice>)
    ensures var r := CompressTranscript(entries);
            forall k :: 0 < k < |r| ==> !Mergeable(r[k - 1], r[k])
  {
    var runs := Runs(entries, Mergeable);
    CompressIsRunSummaries(entries);
    SummariesAt(runs);
    RunsChained(entries, Mergeable);
    RunsMaximal(entries, Mergeable);
    forall k | 0 < k < |runs|
      ensures !Mergeable(Summary(runs[k - 1]), Summary(runs[k]))
    {
      ChainedSameText(runs[k - 1]);
    }
  }

  /** Every output duration is already rounded to hundredths. */
  lemma CompressRounded(entries: seq<Slice>)
    ensures var r := CompressTranscript(entries);
            forall k :: 0 <= k < |r| ==> Round2(r[k].duration) == r[k].duration
  {
    var runs := Runs(entries, Mergeable);
    var r := CompressTranscript(entries);
    CompressIsRunSummaries(entries);
    SummariesAt(runs);
    forall k | 0 <= k < |r|
      ensures Round2(r[k].duration) == r[k].duration
    {
      assert r[k] == Summary(runs[k]);
      Round2Idempotent(SumDurations(runs[k]));
    }
  }

  /** A one-entry run whose duration is already rounded summarises to the
      entry itself. */
  lemma SummarySingle(x: Slice)
    requires Round2(x.duration) == x.duration
    ensures Summary([x]) == x
  {
    RunningSingle(x);
  }

  /** Compressing twice is compressing once. */
  lemma CompressIdempotent(entries: seq<Slice>)
    ensures CompressTranscript(CompressTranscript(entries)) == CompressTranscript(entries)
  {
    CompressLeavesNothingMergeable(entries);
    CompressRounded(entries);
    CompressFixedPoint(CompressTranscript(entries));
  }

  /** A transcript with no mergeable neighbours and rounded durations is
      left as it is. */
  lemma CompressFixedPoint(r: seq<Slice>)
    requires forall k :: 0 < k < |r| ==> !Mergeable(r[k - 1], r[k])
    requires forall k :: 0 <= k < |r| ==> Round2(r[k].duration) == r[k].duration
    ensures CompressTranscript(r) == r
  {
    RunsOfUnlinked(r, Mergeable);
    CompressIsRunSummaries(r);
    SummariesAt(Runs(r, Mergeable));
    var again := CompressTranscript(r);
    assert |again| == |r|;
    forall k | 0 <= k < |r|
      ensures again[k] == r[k]
    {
      SummarySingle(r[k]);
    }
  }

  /** Two contiguous pieces of one sentence, 0.2197 s by SPEAKER_05 then
      3.2903 s by SPEAKER_00, become one entry of 3.51 s by SPEAKER_00. */
  lemma CompressExample()
    ensures CompressTranscript([
              Slice(2761.2700000000004, 2761.48971875, "I'm Patrick", "SPEAKER_05", 0.21971874999962893),
              Slice(2761.48971875, 2764.78, "I'm Patrick", "SPEAKER_00", 3.2902812500001346)])
         == [Slice(2761.2700000000004, 2764.78, "I'm Patrick", "SPEAKER_00", 3.51)]
  {
    var total := 0.21971874999962893 + 3.2902812500001346;
    assert (total * 100.0).Floor == 350;
    assert Round2(total) == 3.51;
  }

  // ----- the older compressor (video_processing_helpers/helpers.py) -----

  /** What the older compressor emits for one run: the first entry, with
      its speaker and duration, stretched to the end of the run. */
  function LegacySummary(p: seq<Slice>): Slice
    requires |p| > 0
  {
    p[0].(end := Last(p).end)
  }

  function LegacySummaries(runs: seq<seq<Slice>>): (r: seq<Slice>)
    requires forall k :: 0 <= k < |runs| ==> |runs[k]| > 0
    ensures |r| == |runs|
    ensures forall k :: 0 <= k < |runs| ==> r[k] == LegacySummary(runs[k])
  {
    if runs == [] then [] else [LegacySummary(runs[0])] + LegacySummaries(runs[1..])
  }

  /** The loop of the older `compress_transcript`. Its locals `speaker` and
      `duration` are updated but never written back, so they are left out. */
  function LegacyFrom(rest: seq<Slice>, current: Slice): (r: seq<Slice>)
    ensures |r| >= 1
    decreases |rest|
  {
    if rest == [] then [current]
    else
      var entry := rest[0];
      if entry.text == current.text && entry.start == current.end then
        LegacyFrom(rest[1..], current.(end := entry.end))
      else
        [current] + LegacyFrom(rest[1..], entry)
  }

  /** The older `compress_transcript(video_path, entries)`. */
  function CompressTranscriptLegacy(entries: seq<Slice>): (r: seq<Slice>)
    ensures entries == [] <==> r == []
  {
    if entries == [] then [] else LegacyFrom(entries[1..], entries[0])
  }

  function LegacyExpected(p: seq<Slice>, rest: seq<Slice>): seq<Slice>
    requires |p| > 0
  {
    var n := ChainLen(Last(p), rest, Mergeable);
    [LegacySummary(p + rest[..n])] + LegacySummaries(Runs(rest[n..], Mergeable))
  }

  lemma LegacyExpectedMerge(p: seq<Slice>, rest: seq<Slice>)
    requires |p| > 0 && rest != [] && Mergeable(Last(p), rest[0])
    ensures LegacyExpected(p, rest) == LegacyExpected(p + [rest[0]], rest[1..])
  {
    ChainMerge(p, rest, Mergeable);
  }

  lemma LegacyExpectedFlush(p: seq<Slice>, rest: seq<Slice>)
    requires |p| > 0 && rest != [] && !Mergeable(Last(p), rest[0])
    ensures LegacyExpected(p, rest) == [LegacySummary(p)] + LegacyExpected([rest[0]], rest[1..])
  {
    ChainFlush(p, rest, Mergeable);
    RunsUnfold(rest, Mergeable);
    assert Last([rest[0]]) == rest[0];
  }

  lemma {:induction false} LegacyFromRuns(p: seq<Slice>, rest: seq<Slice>)
    requires |p| > 0 && Chained(p, Mergeable)
    ensures LegacyFrom(rest, LegacySummary(p)) == LegacyExpected(p, rest)
    decreases |rest|
  {
    ChainedSameText(p);
    if rest == [] {
      assert p + rest[..0] == p;
    } else {
      var e := rest[0];
      if Mergeable(Last(p), e) {
        assert Chained(p + [e], Mergeable);
        assert LegacySummary(p + [e]) == LegacySummary(p).(end := e.end);
        LegacyFromRuns(p + [e], rest[1..]);
        LegacyExpectedMerge(p, rest);
      } else {
        assert LegacySummary([e]) == e;
        LegacyFromRuns([e], rest[1..]);
        LegacyExpectedFlush(p, rest);
      }
    }
  }

  lemma LegacySummariesCons(p: seq<Slice>, runs: seq<seq<Slice>>)
    requires |p| > 0 && forall k :: 0 <= k < |runs| ==> |runs[k]| > 0
    ensures LegacySummaries([p] + runs) == [LegacySummary(p)] + LegacySummaries(runs)
  {
    assert ([p] + runs)[1..] == runs;
  }

  /** The older compressor emits one stretched first entry per maximal run. */
  lemma LegacyIsRunSummaries(entries: seq<Slice>)
    ensures CompressTranscriptLegacy(entries) == LegacySummaries(Runs(entries, Mergeable))
  {
    if entries != [] {
      var e := entries[0];
      var m := ChainLen(e, entries[1..], Mergeable);
      assert LegacySummary([e]) == e;
      assert Last([e]) == e;
      LegacyFromRuns([e], entries[1..]);
      RunsUnfold(entries, Mergeable);
      LegacySummariesCons(entries[..1 + m], Runs(entries[1 + m..], Mergeable));
    }
  }

  /** The older compressor keeps at most all entries and the overall span;
      each output entry keeps the speaker and duration of the first entry
      of its run, unrounded, whichever sub-entry was longest. */
  lemma LegacySizeSpanAndFields(entries: seq<Slice>)
    requires entries != []
    ensures var r := CompressTranscriptLegacy(entries);
            var runs := Runs(entries, Mergeable);
            && 1 <= |r| <= |entries|
            && r[0].start == entries[0].start
            && Last(r).end == Last(entries).end
            && |r| == |runs|
            && forall k :: 0 <= k < |r| ==>
                 r[k].speaker == runs[k][0].speaker && r[k].duration == runs[k][0].duration
  {
    LegacyIsRunSummaries(entries);
    RunsHead(entries, Mergeable);
    RunsLast(entries, Mergeable);
  }

  /** The older compressor also leaves nothing mergeable, so it too is
      idempotent. */
  lemma LegacyIdempotent(entries: seq<Slice>)
    ensures CompressTranscriptLegacy(CompressTranscriptLegacy(entries))
         == CompressTranscriptLegacy(entries)
  {
    LegacyLeavesNothingMergeable(entries);
    LegacyFixedPoint(CompressTranscriptLegacy(entries));
  }

  /** No two neighbours of the older compressor's output could be merged
      again. */
  lemma LegacyLeavesNothingMergeable(entries: seq<Slice>)
    ensures var r := CompressTranscriptLegacy(entries);
            forall k :: 0 < k < |r| ==> !Mergeable(r[k - 1], r[k])
  {
    var runs := Runs(entries, Mergeable);
    LegacyIsRunSummaries(entries);
    RunsChained(entries, Mergeable);
    RunsMaximal(entries, Mergeable);
    forall k | 0 < k < |runs|
      ensures !Mergeable(LegacySummary(runs[k - 1]), LegacySummary(runs[k]))
    {
      ChainedSameText(runs[k - 1]);
    }
  }

  /** A transcript with no mergeable neighbours is its own older
      compression. */
  lemma LegacyFixedPoint(r: seq<Slice>)
    requires forall k :: 0 < k < |r| ==> !Mergeable(r[k - 1], r[k])
    ensures CompressTranscriptLegacy(r) == r
  {
    RunsOfUnlinked(r, Mergeable);
    LegacyIsRunSummaries(r);
  }
}
