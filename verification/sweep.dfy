/** The diarization aligner `merge_transcript_diarization`: a two-pointer
    sweep over the start-sorted transcript and the start-sorted diarization
    turns that emits contiguous speaker-labelled slices and `[SILENCE]`
    fillers. The two copies of the sweep in the repository are identical. */
module Sweep {
  import opened Common
  import opened Records
  import opened Sorting

  /** The sweep either hands back the (sorted) transcript untouched, with
      no speaker or duration fields, or produces labelled slices. */
  datatype SweepResult = Unlabelled(entries: seq<Segment>) | Labelled(slices: seq<Slice>)

  /** The overlap test that lets a text slice carry the turn's speaker. */
  predicate Touches(u: Turn, s: Segment)
  {
    u.start <= s.end && u.end >= s.start
  }

  /** Each slice begins where the previous one ended. */
  ghost predicate Contiguous(r: seq<Slice>)
  {
    forall k :: 0 < k < |r| ==> r[k].start == r[k - 1].end
  }

  /** Each slice's duration is its length. */
  ghost predicate ExactDurations(r: seq<Slice>)
  {
    forall k :: 0 <= k < |r| ==> r[k].duration == r[k].end - r[k].start
  }

  /** A slice is silence labelled `UNKNOWN` or with some turn's speaker, or
      it carries some transcript entry's text, labelled `UNKNOWN` or with the
      speaker of a turn that touches that entry. */
  ghost predicate Attributed(x: Slice, transcript: seq<Segment>, diarization: seq<Turn>)
  {
    || (x.text == Silence
        && (x.speaker == Unknown || exists u :: u in diarization && u.speaker == x.speaker))
    || (exists s :: (s in transcript && s.text == x.text
                     && (x.speaker == Unknown
                         || exists u :: u in diarization && u.speaker == x.speaker && Touches(u, s))))
  }

  /** The earliest end among the active transcript entry and turn. */
  function NextEnd(ts: seq<Segment>, ds: seq<Turn>, t: nat, d: nat): (e: real)
    requires t < |ts| || d < |ds|
    ensures t < |ts| ==> e <= ts[t].end
    ensures d < |ds| ==> e <= ds[d].end
    ensures (t < |ts| && e == ts[t].end) || (d < |ds| && e == ds[d].end)
  {
    if t < |ts| && d < |ds| then Min(ts[t].end, ds[d].end)
    else if t < |ts| then ts[t].end
    else ds[d].end
  }

  /** The slice one iteration of the sweep appends in state `(t, d, now)`. */
  function Emit(ts: seq<Segment>, ds: seq<Turn>, t: nat, d: nat, now: real): (x: Slice)
    requires t < |ts| || d < |ds|
    ensures x.start == now && x.end == NextEnd(ts, ds, t, d)
    ensures x.duration == x.end - x.start
    ensures (d < |ds| && (t >= |ts| || ds[d].end < ts[t].start)) ==>
              x.text == Silence && x.speaker == ds[d].speaker
    ensures t >= |ts| && d >= |ds| ==> x.text == Silence && x.speaker == Unknown
    ensures t < |ts| && !(d < |ds| && ds[d].end < ts[t].start) ==>
              x.text == ts[t].text
              && (x.speaker == (if d < |ds| && Touches(ds[d], ts[t]) then ds[d].speaker else Unknown))
  {
    var nextEnd := NextEnd(ts, ds, t, d);
    if t >= |ts| || (d < |ds| && ds[d].end < ts[t].start) then
      if d < |ds| then
        var e := Min(nextEnd, ds[d].end);
        Slice(now, e, Silence, ds[d].speaker, e - now)
      else
        Slice(now, nextEnd, Silence, Unknown, nextEnd - now)
    else
      var speaker := if d < |ds| && Touches(ds[d], ts[t]) then ds[d].speaker else Unknown;
      Slice(now, nextEnd, ts[t].text, speaker, nextEnd - now)
  }

  /** The loop of the sweep from state `(t, d, now)`, stopping once `now`
      reaches `maxTime` or both lists are used up. */
  function SweepFrom(ts: seq<Segment>, ds: seq<Turn>, t: nat, d: nat, now: real, maxTime: real)
    : (r: seq<Slice>)
    requires t <= |ts| && d <= |ds|
    ensures |r| <= (|ts| - t) + (|ds| - d)
    ensures r != [] ==> r[0].start == now
    ensures Contiguous(r) && ExactDurations(r)
    ensures forall k :: 0 <= k < |r| ==> Attributed(r[k], ts, ds)
    decreases (|ts| - t) + (|ds| - d)
  {
    if !(now < maxTime && (t < |ts| || d < |ds|)) then []
    else
      var x := Emit(ts, ds, t, d, now);
      var nextEnd := NextEnd(ts, ds, t, d);
      var t' := if t < |ts| && nextEnd >= ts[t].end then t + 1 else t;
      var d' := if d < |ds| && nextEnd >= ds[d].end then d + 1 else d;
      var rest := SweepFrom(ts, ds, t', d', nextEnd, maxTime);
      assert x.text == Silence || (t < |ts| && x.text == ts[t].text);
      assert Attributed(x, ts, ds);
      [x] + rest
  }

  /** `merge_transcript_diarization(video_path, transcript, diarization)`. */
  function MergeTranscriptDiarization(transcript: seq<Segment>, diarization: seq<Turn>)
    : (r: SweepResult)
    ensures transcript == [] ==> r == Unlabelled([])
    ensures transcript != [] && diarization == [] ==>
              r == Unlabelled(SortBy(transcript, SegmentStart))
    ensures transcript != [] && diarization != [] ==>
              r.Labelled? && |r.slices| <= |transcript| + |diarization|
    ensures r.Labelled? ==> Contiguous(r.slices) && ExactDurations(r.slices)
  {
    var ts := SortBy(transcript, SegmentStart);
    var ds := SortBy(diarization, TurnStart);
    if ts == [] || ds == [] then
      Unlabelled(if ts != [] then ts else [])
    else
      var now := Min(ts[0].start, ds[0].start);
      var maxTime := Max(ts[|ts| - 1].end, ds[|ds| - 1].end);
      Labelled(SweepFrom(ts, ds, 0, 0, now, maxTime))
  }

  lemma SortedMembers<T>(s: seq<T>, key: T -> real)
    ensures forall x :: x in SortBy(s, key) <==> x in s
  {
    var r := SortBy(s, key);
    assert forall x :: x in r <==> x in multiset(r);
    assert forall x :: x in s <==> x in multiset(s);
  }

  /** The sweep starts at the earliest start of either list. */
  lemma SweepStart(transcript: seq<Segment>, diarization: seq<Turn>)
    requires MergeTranscriptDiarization(transcript, diarization).Labelled?
    requires MergeTranscriptDiarization(transcript, diarization).slices != []
    ensures var x := MergeTranscriptDiarization(transcript, diarization).slices[0];
            && (forall s :: s in transcript ==> x.start <= s.start)
            && (forall u :: u in diarization ==> x.start <= u.start)
            && ((exists s :: s in transcript && s.start == x.start)
                || (exists u :: u in diarization && u.start == x.start))
  {
    var ts := SortBy(transcript, SegmentStart);
    var ds := SortBy(diarization, TurnStart);
    SortedFirstIsLeast(transcript, SegmentStart);
    SortedFirstIsLeast(diarization, TurnStart);
    assert MergeTranscriptDiarization(transcript, diarization).slices[0].start
        == Min(ts[0].start, ds[0].start);
  }

  /** The first element of a sorted non-empty sequence is one of its
      elements with the least key. */
  lemma SortedFirstIsLeast<T>(s: seq<T>, key: T -> real)
    requires s != []
    ensures SortBy(s, key)[0] in s
    ensures forall x :: x in s ==> key(SortBy(s, key)[0]) <= key(x)
  {
    var r := SortBy(s, key);
    SortedMembers(s, key);
    forall x | x in s
      ensures key(r[0]) <= key(x)
    {
      var i :| 0 <= i < |r| && r[i] == x;
      assert key(r[0]) <= key(r[i]);
    }
  }

  lemma AttributedTransfer(x: Slice, ts: seq<Segment>, ds: seq<Turn>,
                           transcript: seq<Segment>, diarization: seq<Turn>)
    requires Attributed(x, ts, ds)
    requires forall s :: s in ts ==> s in transcript
    requires forall u :: u in ds ==> u in diarization
    ensures Attributed(x, transcript, diarization)
  {
  }

  /** Every slice is silence or carries a transcript text, with a speaker
      that is `UNKNOWN` or comes from a turn (for text, a turn that touches
      the entry whose text it carries). */
  lemma SweepAttribution(transcript: seq<Segment>, diarization: seq<Turn>)
    requires MergeTranscriptDiarization(transcript, diarization).Labelled?
    ensures var r := MergeTranscriptDiarization(transcript, diarization).slices;
            forall k :: 0 <= k < |r| ==> Attributed(r[k], transcript, diarization)
  {
    var ts := SortBy(transcript, SegmentStart);
    var ds := SortBy(diarization, TurnStart);
    var r := MergeTranscriptDiarization(transcript, diarization).slices;
    SortedMembers(transcript, SegmentStart);
    SortedMembers(diarization, TurnStart);
    forall k | 0 <= k < |r|
      ensures Attributed(r[k], transcript, diarization)
    {
      AttributedTransfer(r[k], ts, ds, transcript, diarization);
    }
  }

  /** A one-entry transcript and a later, longer turn: the entry's slice
      takes the turn's speaker, and the tail of the turn becomes silence. */
  lemma SweepExample()
    ensures MergeTranscriptDiarization([Segment(0.0, 2.0, "hi")], [Turn(1.0, 3.0, "S0")])
         == Labelled([Slice(0.0, 2.0, "hi", "S0", 2.0), Slice(2.0, 3.0, Silence, "S0", 1.0)])
  {
    var ts := [Segment(0.0, 2.0, "hi")];
    var ds := [Turn(1.0, 3.0, "S0")];
    SortSingle(ts[0], SegmentStart);
    SortSingle(ds[0], TurnStart);
    SweepExampleHead();
  }

  /** The sweep first emits the text slice, labelled with the touching turn. */
  lemma SweepExampleHead()
    ensures SweepFrom([Segment(0.0, 2.0, "hi")], [Turn(1.0, 3.0, "S0")], 0, 0, 0.0, 3.0)
         == [Slice(0.0, 2.0, "hi", "S0", 2.0), Slice(2.0, 3.0, Silence, "S0", 1.0)]
  {
    var ts := [Segment(0.0, 2.0, "hi")];
    var ds := [Turn(1.0, 3.0, "S0")];
    SweepExampleTail();
    assert SweepFrom(ts, ds, 0, 0, 0.0, 3.0)
        == [Slice(0.0, 2.0, "hi", "S0", 2.0)] + SweepFrom(ts, ds, 1, 0, 2.0, 3.0);
  }

  /** After the text slice, the rest of the turn is silence of its speaker. */
  lemma SweepExampleTail()
    ensures SweepFrom([Segment(0.0, 2.0, "hi")], [Turn(1.0, 3.0, "S0")], 1, 0, 2.0, 3.0)
         == [Slice(2.0, 3.0, Silence, "S0", 1.0)]
  {
    var ts := [Segment(0.0, 2.0, "hi")];
    var ds := [Turn(1.0, 3.0, "S0")];
    assert SweepFrom(ts, ds, 1, 1, 3.0, 3.0) == [];
  }
}
