/** The mapping half of `merge_transcript_segments`: sentences found in the
    concatenation of the segment texts are placed back on the timeline by
    character position. A sentence takes the start of the segment holding
    its first character and the end of the segment holding its last; when
    that start falls before the previous sentence's end, both move to the
    midpoint. The sentence splitter is an input. */
module Retokenizer {
  import opened Common
  import opened Records
  import opened MaximalRuns

  /** The number of characters in the texts of `segs`. */
  function TextLength(segs: seq<Segment>): (n: nat)
  {
    if segs == [] then 0 else TextLength(segs[..|segs| - 1]) + |Last(segs).text|
  }

  /** `cumulative_lengths`: the character offset at which each segment's
      text begins in the concatenation, followed by the total length. */
  function CumulativeLengths(segs: seq<Segment>): (cl: seq<int>)
    ensures |cl| == |segs| + 1
  {
    if segs == [] then [0]
    else
      var prev := CumulativeLengths(segs[..|segs| - 1]);
      prev + [Last(prev) + |Last(segs).text|]
  }

  /** Entry `i` is the total length of the texts before segment `i`. */
  lemma {:induction false} CumulativePrefix(segs: seq<Segment>)
    ensures forall i :: 0 <= i <= |segs| ==> CumulativeLengths(segs)[i] == TextLength(segs[..i])
  {
    if segs != [] {
      var front := segs[..|segs| - 1];
      CumulativePrefix(front);
      assert forall i :: 0 <= i <= |front| ==> segs[..i] == front[..i];
      assert segs[..|segs|] == segs;
    }
  }

  /** Each segment's range is as long as its text. */
  lemma CumulativeStep(segs: seq<Segment>, i: nat)
    requires i < |segs|
    ensures CumulativeLengths(segs)[i + 1] == CumulativeLengths(segs)[i] + |segs[i].text|
  {
    CumulativePrefix(segs);
    assert segs[..i + 1][..i] == segs[..i];
  }

  ghost predicate NonDecreasing(cl: seq<int>)
  {
    forall i, j :: 0 <= i <= j < |cl| ==> cl[i] <= cl[j]
  }

  /** The offsets start at 0, never decrease, and end at the length of the
      concatenated text. */
  lemma {:induction false} CumulativeLengthsShape(segs: seq<Segment>)
    ensures CumulativeLengths(segs)[0] == 0
    ensures NonDecreasing(CumulativeLengths(segs))
    ensures Last(CumulativeLengths(segs)) == |Flatten(Texts(segs))|
  {
    var cl := CumulativeLengths(segs);
    CumulativePrefix(segs);
    assert segs[..0] == [];
    assert segs[..|segs|] == segs;
    TextLengthIsFlatten(segs);
    forall k | 0 < k < |cl|
      ensures cl[k - 1] <= cl[k]
    {
      CumulativeStep(segs, k - 1);
    }
    forall i, j | 0 <= i <= j < |cl|
      ensures cl[i] <= cl[j]
    {
      Ascend(cl, i, j);
    }
  }

  lemma {:induction false} TextLengthIsFlatten(segs: seq<Segment>)
    ensures TextLength(segs) == |Flatten(Texts(segs))|
  {
    if segs != [] {
      var front := segs[..|segs| - 1];
      TextLengthIsFlatten(front);
      assert Texts(segs) == Texts(front) + [Last(segs).text];
      FlattenAppend(Texts(front), [Last(segs).text]);
      assert Flatten([Last(segs).text]) == Last(segs).text;
    }
  }

  lemma {:induction false} Ascend(cl: seq<int>, i: nat, j: nat)
    requires forall k :: 0 < k < |cl| ==> cl[k - 1] <= cl[k]
    requires i <= j < |cl|
    ensures cl[i] <= cl[j]
    decreases j - i
  {
    if i < j {
      Ascend(cl, i, j - 1);
    }
  }

  function Texts(segs: seq<Segment>): (r: seq<string>)
    ensures |r| == |segs|
    ensures forall i :: 0 <= i < |segs| ==> r[i] == segs[i].text
  {
    if segs == [] then [] else Texts(segs[..|segs| - 1]) + [Last(segs).text]
  }

  /** Segment `i`'s range `[cl[i], cl[i + 1])` holds character `pos`. */
  predicate Holds(cl: seq<int>, i: nat, pos: int)
    requires i + 1 < |cl|
  {
    cl[i] <= pos < cl[i + 1]
  }

  /** Segment `i`'s range holds the character just before `pos`, so a
      sentence ending at `pos` ends inside it. */
  predicate EndsIn(cl: seq<int>, i: nat, pos: int)
    requires i + 1 < |cl|
  {
    cl[i] < pos <= cl[i + 1]
  }

  /** The index loop for the start segment, run over `i < n`: the last `i`
      whose range holds `pos`. */
  function StartIndex(cl: seq<int>, pos: int, n: nat): (r: Option<nat>)
    requires n < |cl|
    ensures r.Some? ==> r.value < n && Holds(cl, r.value, pos)
    ensures r.Some? ==> forall i :: r.value < i < n ==> !Holds(cl, i, pos)
    ensures r.None? ==> forall i :: 0 <= i < n ==> !Holds(cl, i, pos)
  {
    if n == 0 then None
    else if Holds(cl, n - 1, pos) then Some(n - 1)
    else StartIndex(cl, pos, n - 1)
  }

  /** The index loop for the end segment: the last `i < n` in which a
      sentence ending at `pos` ends. */
  function EndIndex(cl: seq<int>, pos: int, n: nat): (r: Option<nat>)
    requires n < |cl|
    ensures r.Some? ==> r.value < n && EndsIn(cl, r.value, pos)
    ensures r.Some? ==> forall i :: r.value < i < n ==> !EndsIn(cl, i, pos)
    ensures r.None? ==> forall i :: 0 <= i < n ==> !EndsIn(cl, i, pos)
  {
    if n == 0 then None
    else if EndsIn(cl, n - 1, pos) then Some(n - 1)
    else EndIndex(cl, pos, n - 1)
  }

  /** Over non-decreasing offsets from 0, a position has a start segment
      exactly when it lies inside the text, and then that segment is the
      only one whose range holds it. */
  lemma {:induction false} StartIndexFound(cl: seq<int>, pos: int, n: nat)
    requires n < |cl| && cl[0] == 0 && NonDecreasing(cl)
    ensures StartIndex(cl, pos, n).Some? <==> 0 <= pos < cl[n]
    ensures forall i :: 0 <= i < n && Holds(cl, i, pos) ==> StartIndex(cl, pos, n) == Some(i)
  {
    if n > 0 {
      StartIndexFound(cl, pos, n - 1);
      forall i | 0 <= i < n && Holds(cl, i, pos)
        ensures StartIndex(cl, pos, n) == Some(i)
      {
        if i < n - 1 {
          assert cl[i + 1] <= cl[n - 1];
        }
      }
    }
  }

  /** A position has an end segment exactly when `0 < pos <= total`, and
      then that segment is the only one in which a sentence ending there
      ends. */
  lemma {:induction false} EndIndexFound(cl: seq<int>, pos: int, n: nat)
    requires n < |cl| && cl[0] == 0 && NonDecreasing(cl)
    ensures EndIndex(cl, pos, n).Some? <==> 0 < pos <= cl[n]
    ensures forall i :: 0 <= i < n && EndsIn(cl, i, pos) ==> EndIndex(cl, pos, n) == Some(i)
  {
    if n > 0 {
      EndIndexFound(cl, pos, n - 1);
      forall i | 0 <= i < n && EndsIn(cl, i, pos)
        ensures EndIndex(cl, pos, n) == Some(i)
      {
        if i < n - 1 {
          assert cl[i + 1] <= cl[n - 1];
        }
      }
    }
  }

  /** The loop state: `current_pos`, `last_end_time` and the segments
      emitted so far. */
  datatype Mapping = Mapping(pos: int, lastEnd: real, out: seq<Segment>)

  /** Each emitted segment ends no later than the next one starts. */
  ghost predicate Ordered(out: seq<Segment>)
  {
    forall k :: 0 < k < |out| ==> out[k - 1].end <= out[k].start
  }

  /** The loop's invariant: `last_end_time` is the end of the last emitted
      segment, and 0.0 before any is emitted. */
  ghost predicate Consistent(m: Mapping)
  {
    && Ordered(m.out)
    && (m.out == [] ==> m.lastEnd == 0.0)
    && (m.out != [] ==> Last(m.out).end == m.lastEnd)
  }

  /** One iteration of the sentence loop on the (already stripped)
      `sentence`. A start before `last_end_time` with nothing emitted yet
      indexes `merged_segments[-1]` of an empty list. */
  function Place(segs: seq<Segment>, cl: seq<int>, sentence: string, m: Mapping)
    : (r: Result<Mapping>)
    requires |cl| == |segs| + 1
    requires Consistent(m)
    ensures r.Ok? ==> Consistent(r.value) && r.value.pos == m.pos + |sentence|
    ensures r.Ok? ==> |m.out| <= |r.value.out| <= |m.out| + 1
    ensures r.Raises? <==>
              (var si := StartIndex(cl, m.pos, |segs|);
               var ei := EndIndex(cl, m.pos + |sentence|, |segs|);
               si.Some? && ei.Some? && m.out == [] && segs[si.value].start < 0.0)
  {
    var e := m.pos + |sentence|;
    var si := StartIndex(cl, m.pos, |segs|);
    var ei := EndIndex(cl, e, |segs|);
    if si.Some? && ei.Some? then
      var start := segs[si.value].start;
      var end := segs[ei.value].end;
      if start < m.lastEnd then
        if m.out == [] then Raises("IndexError")
        else
          var mid := (start + m.lastEnd) / 2.0;
          var out := m.out[..|m.out| - 1] + [Last(m.out).(end := mid)] + [Segment(mid, end, sentence)];
          assert forall k :: 0 <= k < |m.out| - 1 ==> out[k] == m.out[k];
          Ok(Mapping(e, end, out))
      else
        Ok(Mapping(e, end, m.out + [Segment(start, end, sentence)]))
    else
      Ok(Mapping(e, m.lastEnd, m.out))
  }

  /** The sentence loop over the remaining sentences. */
  function PlaceAll(segs: seq<Segment>, cl: seq<int>, sentences: seq<string>, m: Mapping)
    : (r: Result<Mapping>)
    requires |cl| == |segs| + 1
    requires Consistent(m)
    ensures r.Ok? ==> Consistent(r.value)
    ensures r.Ok? ==> |r.value.out| <= |m.out| + |sentences|
    decreases |sentences|
  {
    if sentences == [] then Ok(m)
    else
      match Place(segs, cl, sentences[0], m)
      case Raises(e) => Raises(e)
      case Ok(m') => PlaceAll(segs, cl, sentences[1..], m')
  }

  /** `merge_transcript_segments(segments)`, where `split` is the sentence
      list the splitter returns for the concatenated text; each sentence is
      stripped before it is placed. */
  function MergeTranscriptSegments(segments: seq<Segment>, split: seq<string>)
    : (r: Result<seq<Segment>>)
    ensures r.Ok? ==> Ordered(r.value) && |r.value| <= |split|
  {
    var sentences := StripAll(split);
    match PlaceAll(segments, CumulativeLengths(segments), sentences, Mapping(0, 0.0, []))
    case Raises(e) => Raises(e)
    case Ok(m) => Ok(m.out)
  }

  function StripAll(split: seq<string>): (r: seq<string>)
    ensures |r| == |split|
    ensures forall k :: 0 <= k < |split| ==> r[k] == Strip(split[k])
  {
    if split == [] then [] else [Strip(split[0])] + StripAll(split[1..])
  }

  /** Every emitted text is one of the sentences, and the position after
      the loop is the total length of all sentences, placed or not. */
  lemma {:induction false} PlaceAllTexts(segs: seq<Segment>, cl: seq<int>,
                                         sentences: seq<string>, m: Mapping)
    requires |cl| == |segs| + 1
    requires Consistent(m)
    requires PlaceAll(segs, cl, sentences, m).Ok?
    ensures var m' := PlaceAll(segs, cl, sentences, m).value;
            && m'.pos == m.pos + |Flatten(sentences)|
            && forall k :: 0 <= k < |m'.out| ==>
                 m'.out[k].text in sentences || (k < |m.out| && m'.out[k].text == m.out[k].text)
    decreases |sentences|
  {
    if sentences != [] {
      var m1 := Place(segs, cl, sentences[0], m).value;
      PlaceAllTexts(segs, cl, sentences[1..], m1);
      assert sentences == [sentences[0]] + sentences[1..];
      FlattenAppend([sentences[0]], sentences[1..]);
      assert Flatten([sentences[0]]) == sentences[0];
      var m' := PlaceAll(segs, cl, sentences, m).value;
      PlaceKeeps(segs, cl, sentences[0], m);
      forall k | 0 <= k < |m'.out|
        ensures m'.out[k].text in sentences || (k < |m.out| && m'.out[k].text == m.out[k].text)
      {
        if !(m'.out[k].text in sentences[1..]) {
          assert k < |m1.out| && m'.out[k].text == m1.out[k].text;
        }
      }
    }
  }

  /** Placing one sentence changes at most the end of the last emitted
      segment (and only to an earlier time), and any segment it adds
      carries the sentence. */
  lemma PlaceKeeps(segs: seq<Segment>, cl: seq<int>, sentence: string, m: Mapping)
    requires |cl| == |segs| + 1
    requires Consistent(m)
    requires Place(segs, cl, sentence, m).Ok?
    ensures var out := Place(segs, cl, sentence, m).value.out;
            && (forall k :: 0 <= k < |m.out| ==>
                  out[k].start == m.out[k].start && out[k].text == m.out[k].text
                  && out[k].end <= m.out[k].end)
            && (forall k :: |m.out| <= k < |out| ==> out[k].text == sentence)
  {
  }

  /** Every emitted segment carries one of the stripped sentences, and the
      emitted segments never overlap. */
  lemma MergeTexts(segments: seq<Segment>, split: seq<string>)
    requires MergeTranscriptSegments(segments, split).Ok?
    ensures var out := MergeTranscriptSegments(segments, split).value;
            && Ordered(out)
            && forall k :: 0 <= k < |out| ==> exists j :: 0 <= j < |split| && out[k].text == Strip(split[j])
  {
    var sentences := StripAll(split);
    var cl := CumulativeLengths(segments);
    var r := PlaceAll(segments, cl, sentences, Mapping(0, 0.0, []));
    assert r.Ok?;
    PlaceAllTexts(segments, cl, sentences, Mapping(0, 0.0, []));
    var out := r.value.out;
    assert out == MergeTranscriptSegments(segments, split).value;
    forall k | 0 <= k < |out|
      ensures exists j :: 0 <= j < |split| && out[k].text == Strip(split[j])
    {
      assert out[k].text in sentences;
      var j :| 0 <= j < |sentences| && sentences[j] == out[k].text;
      assert out[k].text == Strip(split[j]);
    }
  }

  lemma {:induction false} PlaceAllOk(segs: seq<Segment>, cl: seq<int>,
                                      sentences: seq<string>, m: Mapping)
    requires |cl| == |segs| + 1
    requires Consistent(m)
    requires forall i :: 0 <= i < |segs| ==> segs[i].start >= 0.0
    ensures PlaceAll(segs, cl, sentences, m).Ok?
    decreases |sentences|
  {
    if sentences != [] {
      var r := Place(segs, cl, sentences[0], m);
      assert r.Ok?;
      PlaceAllOk(segs, cl, sentences[1..], r.value);
    }
  }

  /** The only error is the `IndexError` of a first placed sentence whose
      segment starts before time 0; with no negative start times the
      mapping always succeeds. */
  lemma MergeSucceeds(segments: seq<Segment>, split: seq<string>)
    requires forall i :: 0 <= i < |segments| ==> segments[i].start >= 0.0
    ensures MergeTranscriptSegments(segments, split).Ok?
  {
    PlaceAllOk(segments, CumulativeLengths(segments), StripAll(split), Mapping(0, 0.0, []));
  }

  /** A first sentence on a segment that starts before time 0 triggers the
      midpoint correction with nothing emitted yet. */
  lemma NegativeStartRaises(t: string)
    requires t != [] && Strip(t) == t
    ensures MergeTranscriptSegments([Segment(-1.0, 1.0, t)], [t]) == Raises("IndexError")
  {
    var segs := [Segment(-1.0, 1.0, t)];
    var cl := CumulativeLengths(segs);
    assert segs[..0] == [];
    assert CumulativeLengths(segs[..0]) == [0];
    assert cl == [0, |t|];
    assert StartIndex(cl, 0, 1) == Some(0);
    assert EndIndex(cl, |t|, 1) == Some(0);
    assert StripAll([t]) == [t];
  }

  /** A sentence that begins past the end of the text is dropped, and the
      position still advances by its length. */
  lemma DroppedBeyondText(segs: seq<Segment>, sentence: string, m: Mapping)
    requires Consistent(m)
    requires m.pos >= Last(CumulativeLengths(segs))
    ensures Place(segs, CumulativeLengths(segs), sentence, m)
         == Ok(Mapping(m.pos + |sentence|, m.lastEnd, m.out))
  {
    var cl := CumulativeLengths(segs);
    assert StartIndex(cl, m.pos, |segs|).None? by {
      CumulativeLengthsShape(segs);
      StartIndexFound(cl, m.pos, |segs|);
    }
  }

  /** When a sentence starts before the previous one ends, the previous end
      and the new start become their midpoint. */
  lemma MidpointCorrection(segs: seq<Segment>, cl: seq<int>, sentence: string, m: Mapping,
                           i: nat, j: nat)
    requires |cl| == |segs| + 1 && cl[0] == 0 && NonDecreasing(cl)
    requires Consistent(m) && m.out != []
    requires i < |segs| && j < |segs|
    requires Holds(cl, i, m.pos) && EndsIn(cl, j, m.pos + |sentence|)
    requires segs[i].start < m.lastEnd
    ensures var r := Place(segs, cl, sentence, m);
            var mid := (segs[i].start + m.lastEnd) / 2.0;
            && r.Ok?
            && |r.value.out| == |m.out| + 1
            && r.value.out[|m.out| - 1] == Last(m.out).(end := mid)
            && Last(r.value.out) == Segment(mid, segs[j].end, sentence)
            && segs[i].start < mid < m.lastEnd
  {
    StartIndexFound(cl, m.pos, |segs|);
    EndIndexFound(cl, m.pos + |sentence|, |segs|);
  }

  /** A sentence that starts at or after the previous end becomes one new
      segment: its text, the start of the segment holding its first
      character and the end of the segment holding its last; the earlier
      output is untouched. */
  lemma OrdinaryPlacement(segs: seq<Segment>, cl: seq<int>, sentence: string, m: Mapping,
                          i: nat, j: nat)
    requires |cl| == |segs| + 1 && cl[0] == 0 && NonDecreasing(cl)
    requires Consistent(m)
    requires i < |segs| && j < |segs|
    requires Holds(cl, i, m.pos) && EndsIn(cl, j, m.pos + |sentence|)
    requires segs[i].start >= m.lastEnd
    ensures Place(segs, cl, sentence, m)
         == Ok(Mapping(m.pos + |sentence|, segs[j].end,
                       m.out + [Segment(segs[i].start, segs[j].end, sentence)]))
  {
    StartIndexFound(cl, m.pos, |segs|);
    EndIndexFound(cl, m.pos + |sentence|, |segs|);
  }

  /** The timeline the segments already form: starts at or after 0, and no
      segment starts before the previous one ends. */
  ghost predicate Sequential(segs: seq<Segment>)
  {
    && (segs != [] ==> segs[0].start >= 0.0)
    && forall k :: 0 < k < |segs| ==> segs[k - 1].end <= segs[k].start
  }

  /** The width of segment `i`'s range. */
  function Width(cl: seq<int>, i: nat): int
    requires i + 1 < |cl|
  {
    cl[i + 1] - cl[i]
  }

  /** `cl` is a table of text offsets for `segs`. */
  ghost predicate Offsets(segs: seq<Segment>, cl: seq<int>)
  {
    && |cl| == |segs| + 1 && cl[0] == 0 && NonDecreasing(cl)
    && forall i :: 0 <= i < |segs| ==> Width(cl, i) == |segs[i].text|
  }

  lemma CumulativeOffsets(segs: seq<Segment>)
    ensures Offsets(segs, CumulativeLengths(segs))
  {
    CumulativeLengthsShape(segs);
    forall i | 0 <= i < |segs|
      ensures Width(CumulativeLengths(segs), i) == |segs[i].text|
    {
      CumulativeStep(segs, i);
    }
  }

  /** Placing sentence `k` when it is exactly segment `k`'s text. */
  lemma PlaceOwnText(segs: seq<Segment>, cl: seq<int>, k: nat)
    requires k < |segs| && Offsets(segs, cl)
    requires forall i :: 0 <= i < |segs| ==> segs[i].text != []
    requires Sequential(segs)
    ensures var m := Mapping(cl[k], if k == 0 then 0.0 else segs[k - 1].end, segs[..k]);
            Consistent(m)
            && Place(segs, cl, segs[k].text, m)
               == Ok(Mapping(cl[k + 1], segs[k].end, segs[..k + 1]))
  {
    assert Width(cl, k) == |segs[k].text|;
    StartIndexFound(cl, cl[k], |segs|);
    EndIndexFound(cl, cl[k + 1], |segs|);
    assert segs[..k + 1] == segs[..k] + [segs[k]];
  }

  lemma {:induction false} PlaceOwnTexts(segs: seq<Segment>, cl: seq<int>, k: nat)
    requires k <= |segs| && Offsets(segs, cl)
    requires forall i :: 0 <= i < |segs| ==> segs[i].text != []
    requires Sequential(segs)
    ensures var m := Mapping(cl[k], if k == 0 then 0.0 else segs[k - 1].end, segs[..k]);
            Consistent(m)
            && PlaceAll(segs, cl, Texts(segs)[k..], m)
               == Ok(Mapping(Last(cl), if segs == [] then 0.0 else Last(segs).end, segs))
    decreases |segs| - k
  {
    if k == |segs| {
      assert segs[..k] == segs;
      assert Texts(segs)[k..] == [];
    } else {
      PlaceOwnText(segs, cl, k);
      PlaceOwnTexts(segs, cl, k + 1);
      assert Texts(segs)[k..][1..] == Texts(segs)[k + 1..];
    }
  }

  /** Round trip: when the splitter returns exactly the segment texts (each
      non-empty and already stripped) and the segments already lie in order
      on the timeline, the segments come back unchanged. */
  lemma MergeOfOwnSentences(segs: seq<Segment>)
    requires forall i :: 0 <= i < |segs| ==> segs[i].text != [] && Strip(segs[i].text) == segs[i].text
    requires Sequential(segs)
    ensures MergeTranscriptSegments(segs, Texts(segs)) == Ok(segs)
  {
    var texts := Texts(segs);
    StripAllOfStripped(texts);
    var cl := CumulativeLengths(segs);
    CumulativeOffsets(segs);
    PlaceOwnTexts(segs, cl, 0);
    assert texts[0..] == texts;
    assert segs[..0] == [];
  }

  /** Stripping sentences that are already stripped changes nothing. */
  lemma StripAllOfStripped(split: seq<string>)
    requires forall k :: 0 <= k < |split| ==> Strip(split[k]) == split[k]
    ensures StripAll(split) == split
  {
  }
}
