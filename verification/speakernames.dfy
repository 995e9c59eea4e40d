/** `map_speakers`: labelling every transcript slice with a speaker name
    from the speaker map, defaulting to the speaker ID itself. The two copies
    in the repository are identical. */
module SpeakerNames {
  import opened Common
  import opened Records
  import opened Entities
  import opened Introductions

  /** A transcript entry extended with `speaker_name`. */
  datatype NamedSlice = NamedSlice(slice: Slice, speakerName: string)

  /** `map_speakers(video_path, transcripts, speaker_to_name)`. The map's
      keys are optional because the matcher's `None` is a key; a slice's
      speaker is always a string. */
  function MapSpeakers(transcripts: seq<Slice>, names: map<Option<string>, string>)
    : (r: seq<NamedSlice>)
    ensures |r| == |transcripts|
    ensures forall k :: 0 <= k < |r| ==> r[k].slice == transcripts[k]
    ensures forall k :: 0 <= k < |r| && Some(transcripts[k].speaker) !in names ==>
              r[k].speakerName == transcripts[k].speaker
    ensures forall k :: 0 <= k < |r| && Some(transcripts[k].speaker) in names ==>
              r[k].speakerName == names[Some(transcripts[k].speaker)]
  {
    if transcripts == [] then []
    else
      var s := transcripts[0];
      var name := if Some(s.speaker) in names then names[Some(s.speaker)] else s.speaker;
      [NamedSlice(s, name)] + MapSpeakers(transcripts[1..], names)
  }

  /** With a map built by `create_speaker_map`, a slice's name is its own
      speaker ID, or the name of an introduction whose best-overlapping turn
      belongs to that speaker; an `UNKNOWN` slice stays `UNKNOWN`. */
  lemma NamesTraceToIntroductions(transcripts: seq<Slice>, intros: seq<IntroSegment>,
                                  extracted: Option<seq<seq<Entry>>>, diarization: seq<Turn>)
    requires CreateSpeakerMap(intros, extracted, diarization).Ok?
    ensures var names := CreateSpeakerMap(intros, extracted, diarization).value;
            var persons := ExtractPersons(intros, extracted).value;
            var r := MapSpeakers(transcripts, names);
            forall k :: 0 <= k < |r| ==>
              || r[k].speakerName == transcripts[k].speaker
              || (exists p, j :: p in persons && r[k].speakerName == p.speakerName
                                 && FirstMaximal(p.start, p.end, diarization, j, 0.0)
                                 && diarization[j].speaker == transcripts[k].speaker)
    ensures var names := CreateSpeakerMap(intros, extracted, diarization).value;
            var r := MapSpeakers(transcripts, names);
            forall k :: 0 <= k < |r| && transcripts[k].speaker == Unknown ==> r[k].speakerName == Unknown
  {
    CreateSpeakerMapSound(intros, extracted, diarization);
  }
}
