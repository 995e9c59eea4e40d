/** Topic numbering from the segmenter's transition flags
    (`update_transcript_with_topics`), the grouping of transcript text per
    topic and the per-topic loop that asks a language model for a headline
    or summary. The segmenter and the language model are parameters. */
module Topics {
  import opened Common

  /** A transcript entry with its optional `topic` field. */
  datatype TopicEntry = TopicEntry(start: real, end: real, text: string, topic: Option<int>)

  // ---------------------------------------------------------------------
  // update_transcript_with_topics

  /** The number of flags equal to 1. */
  function CountOnes(flags: seq<int>): (n: nat)
    ensures n <= |flags|
  {
    if flags == [] then 0
    else CountOnes(flags[..|flags| - 1]) + (if flags[|flags| - 1] == 1 then 1 else 0)
  }

  /** The annotation loop: `current` is the topic reached before `ts[0]`. */
  function Annotate(ts: seq<TopicEntry>, flags: seq<int>, current: int): (r: seq<TopicEntry>)
    requires |ts| == |flags|
    ensures |r| == |ts|
  {
    if ts == [] then []
    else
      var c := if flags[0] == 1 then current + 1 else current;
      [ts[0].(topic := Some(c))] + Annotate(ts[1..], flags[1..], c)
  }

  /** The loop gives entry `k` the starting topic plus the number of 1-flags
      up to and including position `k`, and changes nothing else. */
  lemma {:induction false} AnnotateSpec(ts: seq<TopicEntry>, flags: seq<int>, current: int)
    requires |ts| == |flags|
    ensures forall k :: 0 <= k < |ts| ==>
              Annotate(ts, flags, current)[k] == ts[k].(topic := Some(current + CountOnes(flags[..k + 1])))
  {
    if ts != [] {
      var c := if flags[0] == 1 then current + 1 else current;
      AnnotateSpec(ts[1..], flags[1..], c);
      forall k | 0 <= k < |ts|
        ensures Annotate(ts, flags, current)[k] == ts[k].(topic := Some(current + CountOnes(flags[..k + 1])))
      {
        AnnotateAt(ts, flags, current, k);
      }
    }
  }

  lemma AnnotateAt(ts: seq<TopicEntry>, flags: seq<int>, current: int, k: nat)
    requires |ts| == |flags| && k < |ts|
    requires var c := if flags[0] == 1 then current + 1 else current;
             forall j :: 0 <= j < |ts| - 1 ==>
               Annotate(ts[1..], flags[1..], c)[j] == ts[1..][j].(topic := Some(c + CountOnes(flags[1..][..j + 1])))
    ensures Annotate(ts, flags, current)[k] == ts[k].(topic := Some(current + CountOnes(flags[..k + 1])))
  {
    var c := if flags[0] == 1 then current + 1 else current;
    var r := Annotate(ts, flags, current);
    CountOnesCons(flags[..k + 1]);
    if k > 0 {
      assert flags[..k + 1][1..] == flags[1..][..k];
      assert r[k] == Annotate(ts[1..], flags[1..], c)[k - 1];
    } else {
      assert flags[..1][1..] == [];
      assert CountOnes([]) == 0;
    }
  }

  /** Counting from the front agrees with counting from the back. */
  lemma {:induction false} CountOnesCons(flags: seq<int>)
    requires flags != []
    ensures CountOnes(flags) == (if flags[0] == 1 then 1 else 0) + CountOnes(flags[1..])
    decreases |flags|
  {
    if |flags| > 1 {
      var n := |flags| - 1;
      CountOnesCons(flags[..n]);
      assert flags[..n][1..] == flags[1..][..n - 1];
      assert flags[..n][0] == flags[0];
    } else {
      assert flags[..0] == [] && flags[1..] == [];
    }
  }

  /** `update_transcript_with_topics(transcript, transitions)`: a length
      mismatch raises; otherwise entry `k` gets, and only gets, the topic
      equal to the number of 1-flags among positions `0..k`. */
  function UpdateTranscriptWithTopics(transcript: seq<TopicEntry>, transitions: seq<int>)
    : (r: Result<seq<TopicEntry>>)
    ensures |transcript| != |transitions| <==> r == Raises("ValueError")
    ensures r.Ok? ==> |r.value| == |transcript|
    ensures r.Ok? ==> forall k :: 0 <= k < |transcript| ==>
              r.value[k] == transcript[k].(topic := Some(CountOnes(transitions[..k + 1])))
  {
    if |transcript| != |transitions| then Raises("ValueError")
    else
      AnnotateSpec(transcript, transitions, 0);
      Ok(Annotate(transcript, transitions, 0))
  }

  /** Topics start at 1 if the first flag is 1 and at 0 otherwise, and each
      entry's topic is its predecessor's plus one exactly when its own flag
      is 1, so topics never decrease and never skip a number. */
  lemma {:induction false} TopicSteps(transcript: seq<TopicEntry>, transitions: seq<int>)
    requires |transcript| == |transitions|
    ensures var r := UpdateTranscriptWithTopics(transcript, transitions).value;
            && (|r| > 0 ==> r[0].topic == Some(if transitions[0] == 1 then 1 else 0))
            && forall k :: 0 < k < |r| ==>
                 r[k].topic.value == r[k - 1].topic.value + (if transitions[k] == 1 then 1 else 0)
  {
    var r := UpdateTranscriptWithTopics(transcript, transitions).value;
    if |r| > 0 {
      assert transitions[..1][..0] == [];
    }
    forall k | 0 < k < |r|
      ensures r[k].topic.value == r[k - 1].topic.value + (if transitions[k] == 1 then 1 else 0)
    {
      assert transitions[..k + 1][..k] == transitions[..k];
    }
  }

  // ---------------------------------------------------------------------
  // Grouping text per topic

  /** The largest topic present, if any entry has one. */
  function MaxTopic(entries: seq<TopicEntry>): (m: Option<int>)
    ensures m.None? <==> forall k :: 0 <= k < |entries| ==> entries[k].topic.None?
    ensures m.Some? ==> (exists k :: 0 <= k < |entries| && entries[k].topic == Some(m.value))
                        && forall k :: 0 <= k < |entries| && entries[k].topic.Some? ==>
                             entries[k].topic.value <= m.value
  {
    if entries == [] then None
    else
      var rest := MaxTopic(entries[1..]);
      assert forall k :: 0 < k < |entries| ==> entries[k] == entries[1..][k - 1];
      var t := entries[0].topic;
      if t.None? then rest
      else if rest.None? || t.value >= rest.value then t
      else rest
  }

  /** One step of the accumulation loop: append the text to its topic's
      group, with a space unless the group is still empty. */
  function Accumulate(groups: seq<string>, e: TopicEntry): (r: seq<string>)
    ensures |r| == |groups|
  {
    if e.topic.Some? && 0 <= e.topic.value < |groups| then
      var k := e.topic.value;
      groups[k := if groups[k] != [] then groups[k] + " " + e.text else e.text]
    else groups
  }

  /** The accumulation loop over all entries, from `groups`. */
  function AccumulateAll(groups: seq<string>, entries: seq<TopicEntry>): (r: seq<string>)
    ensures |r| == |groups|
  {
    if entries == [] then groups
    else Accumulate(AccumulateAll(groups, entries[..|entries| - 1]), entries[|entries| - 1])
  }

  /** `[""] * n`, which is empty for `n <= 0`. */
  function Blanks(n: int): (r: seq<string>)
    ensures |r| == (if n > 0 then n else 0)
    ensures forall k :: 0 <= k < |r| ==> r[k] == []
    decreases if n > 0 then n else 0
  {
    if n <= 0 then [] else [[]] + Blanks(n - 1)
  }

  /** The groups `_create_outputs_from_transcript_topics` builds, or `None`
      where it gives up: no entries, no topics, or a negative largest topic
      (which makes the list empty). */
  function GroupTopicTexts(entries: seq<TopicEntry>): (r: Option<seq<string>>)
    ensures r.Some? ==> MaxTopic(entries).Some? && |r.value| == MaxTopic(entries).value + 1
    ensures r.None? <==> entries == [] || MaxTopic(entries).None? || MaxTopic(entries).value < 0
  {
    if entries == [] then None
    else
      var m := MaxTopic(entries);
      if m.None? then None
      else
        var groups := AccumulateAll(Blanks(m.value + 1), entries);
        if groups == [] then None else Some(groups)
  }

  /** The texts of the entries with topic `k`, in order. */
  function TopicTexts(entries: seq<TopicEntry>, k: int): seq<string>
  {
    if entries == [] then []
    else
      var e := entries[|entries| - 1];
      TopicTexts(entries[..|entries| - 1], k) + (if e.topic == Some(k) then [e.text] else [])
  }

  /** Drops the empty strings before the first non-empty one. */
  function DropLeadingEmpty(xs: seq<string>): (r: seq<string>)
    ensures r == [] || r[0] != []
  {
    if xs == [] then [] else if xs[0] == [] then DropLeadingEmpty(xs[1..]) else xs
  }

  lemma {:induction false} DropLeadingEmptySnoc(xs: seq<string>, t: string)
    ensures DropLeadingEmpty(xs + [t])
         == if DropLeadingEmpty(xs) == [] then (if t == [] then [] else [t])
            else DropLeadingEmpty(xs) + [t]
  {
    if xs != [] {
      assert (xs + [t])[0] == xs[0];
      if xs[0] == [] {
        assert (xs + [t])[1..] == xs[1..] + [t];
        DropLeadingEmptySnoc(xs[1..], t);
      }
    } else {
      assert [t][1..] == [];
    }
  }

  lemma JoinNonEmpty(parts: seq<string>, sep: string)
    requires parts != [] && parts[0] != []
    ensures Join(parts, sep) != []
  {
  }

  /** The group of topic `k`: its texts joined by single spaces, where empty
      texts before the first non-empty one vanish. */
  ghost function GroupText(entries: seq<TopicEntry>, k: int): string
  {
    Join(DropLeadingEmpty(TopicTexts(entries, k)), " ")
  }

  /** One accumulation step keeps group `k` equal to the text of topic `k`. */
  lemma AccumulateStep(g0: seq<string>, init: seq<TopicEntry>, e: TopicEntry, k: nat)
    requires k < |g0| && g0[k] == GroupText(init, k)
    ensures Accumulate(g0, e)[k] == GroupText(init + [e], k)
  {
    var xs := TopicTexts(init, k);
    var es := init + [e];
    assert es[..|es| - 1] == init && es[|es| - 1] == e;
    assert TopicTexts(es, k) == xs + (if e.topic == Some(k) then [e.text] else []);
    if e.topic != Some(k) {
      assert xs + [] == xs;
    } else {
      DropLeadingEmptySnoc(xs, e.text);
      var d := DropLeadingEmpty(xs);
      if d != [] {
        JoinNonEmpty(d, " ");
        JoinSnoc(d, " ", e.text);
      }
    }
  }

  lemma {:induction false} AccumulateAllSpec(n: nat, entries: seq<TopicEntry>)
    ensures var g := AccumulateAll(Blanks(n), entries);
            forall k :: 0 <= k < n ==> g[k] == GroupText(entries, k)
  {
    if entries != [] {
      var init := entries[..|entries| - 1];
      var e := entries[|entries| - 1];
      AccumulateAllSpec(n, init);
      assert init + [e] == entries;
      forall k | 0 <= k < n ensures AccumulateAll(Blanks(n), entries)[k] == GroupText(entries, k) {
        AccumulateStep(AccumulateAll(Blanks(n), init), init, e, k);
      }
    }
  }

  /** Group `k` of the grouping is the text of topic `k`, for every `k` from
      0 to the largest topic; topics outside that range are skipped. */
  lemma GroupTopicTextsSpec(entries: seq<TopicEntry>)
    requires GroupTopicTexts(entries).Some?
    ensures var g := GroupTopicTexts(entries).value;
            forall k :: 0 <= k < |g| ==> g[k] == GroupText(entries, k)
  {
    AccumulateAllSpec(MaxTopic(entries).value + 1, entries);
  }

  // ---------------------------------------------------------------------
  // The per-topic language-model loop

  /** What separates the prompt template from the topic's text. */
  const SectionHeader: string := "\n\nTranscript section:\n"

  /** The prefix of the text recorded for a failed model call. */
  const ErrorPrefix: string := "Error: Could not generate LLM output for topic "

  /** The prompt sent for one topic. */
  function Prompt(template: string, text: string): string
  {
    template + SectionHeader + text
  }

  /** The text recorded when the model call for topic `i` raises. */
  function ErrorText(i: nat): string
  {
    ErrorPrefix + NatToString(i)
  }

  /** The output for group `i` with text `text`: empty for a blank group,
      the stripped answer, or the error text naming the topic when the call
      fails. */
  function Answer(text: string, i: nat, template: string, llm: string -> Option<string>): string
  {
    if Strip(text) == [] then ""
    else if llm(Prompt(template, text)).None? then ErrorText(i)
    else Strip(llm(Prompt(template, text)).value)
  }

  /** The outputs and, in order, the prompts sent to the model. */
  datatype Generation = Generation(outputs: seq<string>, prompts: seq<string>)

  /** `_generate_topic_outputs` from topic `i` on; `llm` answers a prompt or
      fails (`None`). */
  function GenerateFrom(groups: seq<string>, i: nat, template: string, llm: string -> Option<string>)
    : (r: Generation)
    requires i <= |groups|
    ensures |r.outputs| == |groups| - i
    decreases |groups| - i
  {
    if i == |groups| then Generation([], [])
    else
      var rest := GenerateFrom(groups, i + 1, template, llm);
      var out := Answer(groups[i], i, template, llm);
      if Strip(groups[i]) == [] then Generation([out] + rest.outputs, rest.prompts)
      else Generation([out] + rest.outputs, [Prompt(template, groups[i])] + rest.prompts)
  }

  lemma GenerateFromCons(groups: seq<string>, i: nat, template: string, llm: string -> Option<string>)
    requires i < |groups|
    ensures GenerateFrom(groups, i, template, llm).outputs
         == [Answer(groups[i], i, template, llm)] + GenerateFrom(groups, i + 1, template, llm).outputs
  {
  }

  /** The loop's outputs from topic `i` on are the answers for the groups
      from `i` on, each numbered by its position. */
  lemma {:induction false} GenerateIsMap(groups: seq<string>, i: nat, template: string,
                                         llm: string -> Option<string>)
    requires i <= |groups|
    ensures GenerateFrom(groups, i, template, llm).outputs
         == MapIndexed(groups, i, (t, k) => Answer(t, k, template, llm))
    decreases |groups| - i
  {
    if i < |groups| {
      var f := (t, k) => Answer(t, k, template, llm);
      GenerateIsMap(groups, i + 1, template, llm);
      GenerateFromCons(groups, i, template, llm);
      MapIndexedCons(groups, i, f);
    }
  }

  /** Output `j - i` is the answer for group `j`, topic number `j`. */
  lemma GenerateOutputs(groups: seq<string>, i: nat, j: nat, template: string,
                        llm: string -> Option<string>)
    requires i <= j < |groups|
    ensures GenerateFrom(groups, i, template, llm).outputs[j - i] == Answer(groups[j], j, template, llm)
  {
    GenerateIsMap(groups, i, template, llm);
  }

  /** The prompts of the groups that are not blank, in order. */
  function NonBlankPrompts(groups: seq<string>, template: string): seq<string>
  {
    if groups == [] then []
    else (if Strip(groups[0]) == [] then [] else [Prompt(template, groups[0])])
         + NonBlankPrompts(groups[1..], template)
  }

  /** The model is asked once per non-blank group, in order, and never for
      a blank one. */
  lemma {:induction false} GeneratePrompts(groups: seq<string>, i: nat, template: string,
                                           llm: string -> Option<string>)
    requires i <= |groups|
    ensures GenerateFrom(groups, i, template, llm).prompts == NonBlankPrompts(groups[i..], template)
    decreases |groups| - i
  {
    if i < |groups| {
      GeneratePrompts(groups, i + 1, template, llm);
      assert groups[i..][1..] == groups[i + 1..];
    }
  }

  /** `_generate_topic_outputs(video_path, groups, template)`. */
  function GenerateTopicOutputs(groups: seq<string>, template: string, llm: string -> Option<string>)
    : (r: Generation)
    ensures groups == [] ==> r.outputs == [] && r.prompts == []
  {
    GenerateFrom(groups, 0, template, llm)
  }

  /** `_create_outputs_from_transcript_topics(video_path, entries, prompt)`. */
  function CreateTopicOutputs(entries: seq<TopicEntry>, template: string, llm: string -> Option<string>)
    : (r: Option<seq<string>>)
    ensures r.None? <==> GroupTopicTexts(entries).None?
    ensures r.Some? ==> |r.value| == |GroupTopicTexts(entries).value|
  {
    var groups := GroupTopicTexts(entries);
    if groups.None? then None
    else Some(GenerateTopicOutputs(groups.value, template, llm).outputs)
  }

  /** Output `k` is the model's answer for the text of topic `k`. */
  lemma CreateTopicOutputsSpec(entries: seq<TopicEntry>, template: string, llm: string -> Option<string>)
    requires CreateTopicOutputs(entries, template, llm).Some?
    ensures var r := CreateTopicOutputs(entries, template, llm).value;
            forall k :: 0 <= k < |r| ==> r[k] == Answer(GroupText(entries, k), k, template, llm)
  {
    var g := GroupTopicTexts(entries).value;
    var r := CreateTopicOutputs(entries, template, llm).value;
    assert r == GenerateFrom(g, 0, template, llm).outputs;
    GroupTopicTextsSpec(entries);
    forall k | 0 <= k < |r| ensures r[k] == Answer(GroupText(entries, k), k, template, llm) {
      OutputAt(g, k, GroupText(entries, k), template, llm);
    }
  }

  lemma OutputAt(groups: seq<string>, k: nat, text: string, template: string, llm: string -> Option<string>)
    requires k < |groups| && groups[k] == text
    ensures GenerateFrom(groups, 0, template, llm).outputs[k] == Answer(text, k, template, llm)
  {
    GenerateOutputs(groups, 0, k, template, llm);
  }
}
