/** Matching introduced names to diarization speakers
    (`map_entities_to_speakers`), the speaker-to-name dictionary
    (`speaker_to_name`) and their composition (`create_speaker_map`). */
module Introductions {
  import opened Common
  import opened Records
  import opened Entities

  /** An entity extended with `matched_speaker` and `overlap_duration`. */
  datatype Matched<E> = Matched(entity: E, matchedSpeaker: Option<string>, overlapDuration: real)

  /** The state of the inner loop: the best speaker so far and its overlap. */
  datatype Choice = Choice(speaker: Option<string>, overlap: real)

  /** The turn, widened by `margin` on both sides, overlaps the entity:
      a strict test. */
  predicate Candidate(start: real, end: real, u: Turn, margin: real)
  {
    Max(start, u.start - margin) < Min(end, u.end + margin)
  }

  /** The overlap of the entity with the unwidened turn, clamped at zero and
      rounded to hundredths. */
  function Overlap(start: real, end: real, u: Turn): (r: real)
    ensures r >= 0.0
    ensures r > 0.0 ==> Max(start, u.start) < Min(end, u.end)
  {
    Round2NonNegative(Max(0.0, Min(end, u.end) - Max(start, u.start)));
    Round2(Max(0.0, Min(end, u.end) - Max(start, u.start)))
  }

  /** The inner loop over the remaining turns, from state `acc`. */
  function SelectFrom(start: real, end: real, turns: seq<Turn>, margin: real, acc: Choice)
    : (r: Choice)
    decreases |turns|
  {
    if turns == [] then acc
    else
      var u := turns[0];
      var acc' := if Candidate(start, end, u, margin) && Overlap(start, end, u) > acc.overlap
                  then Choice(Some(u.speaker), Overlap(start, end, u))
                  else acc;
      SelectFrom(start, end, turns[1..], margin, acc')
  }

  /** The speaker matched to one entity, starting from `None` / `0.0`. */
  function MatchEntity(start: real, end: real, turns: seq<Turn>, margin: real): (r: Choice)
  {
    SelectFrom(start, end, turns, margin, Choice(None, 0.0))
  }

  /** `map_entities_to_speakers(video_path, ner_data, diarization, margin)`
      over entities of any type with the given start and end. */
  function MapEntitiesToSpeakers<E>(ner: seq<E>, startOf: E -> real, endOf: E -> real,
                                    turns: seq<Turn>, margin: real): (r: seq<Matched<E>>)
    ensures |r| == |ner|
    ensures forall k :: 0 <= k < |r| ==>
              && r[k].entity == ner[k]
              && Choice(r[k].matchedSpeaker, r[k].overlapDuration)
                 == MatchEntity(startOf(ner[k]), endOf(ner[k]), turns, margin)
  {
    if ner == [] then []
    else
      var c := MatchEntity(startOf(ner[0]), endOf(ner[0]), turns, margin);
      [Matched(ner[0], c.speaker, c.overlap)]
        + MapEntitiesToSpeakers(ner[1..], startOf, endOf, turns, margin)
  }

  // ---------------------------------------------------------------------
  // What the matcher selects

  /** Turn `k` is the first turn whose overlap is the largest, and that
      overlap exceeds `floor`. */
  ghost predicate FirstMaximal(start: real, end: real, turns: seq<Turn>, k: int, floor: real)
  {
    && 0 <= k < |turns|
    && Overlap(start, end, turns[k]) > floor
    && (forall j :: 0 <= j < |turns| ==> Overlap(start, end, turns[j]) <= Overlap(start, end, turns[k]))
    && (forall j :: 0 <= j < k ==> Overlap(start, end, turns[j]) < Overlap(start, end, turns[k]))
  }

  /** With a non-negative margin, the widened test never rejects a turn
      that would win: a positive overlap passes it, and a rejected turn's
      overlap is zero. */
  lemma CandidateIrrelevant(start: real, end: real, u: Turn, margin: real, floor: real)
    requires margin >= 0.0 && floor >= 0.0
    ensures (Candidate(start, end, u, margin) && Overlap(start, end, u) > floor)
            <==> Overlap(start, end, u) > floor
  {
    if !Candidate(start, end, u, margin) {
      assert Min(end, u.end) - Max(start, u.start) <= 0.0;
      Round2Zero();
    }
  }

  /** The loop's result from state `acc`: unchanged if no turn beats
      `acc.overlap`, otherwise the first turn with the largest overlap. */
  lemma {:induction false} SelectFromSpec(start: real, end: real, turns: seq<Turn>, margin: real, acc: Choice)
    requires margin >= 0.0 && acc.overlap >= 0.0
    ensures var r := SelectFrom(start, end, turns, margin, acc);
            if forall j :: 0 <= j < |turns| ==> Overlap(start, end, turns[j]) <= acc.overlap
            then r == acc
            else exists k :: FirstMaximal(start, end, turns, k, acc.overlap)
                             && r == Choice(Some(turns[k].speaker), Overlap(start, end, turns[k]))
    decreases |turns|
  {
    if turns != [] {
      var u := turns[0];
      var o := Overlap(start, end, u);
      CandidateIrrelevant(start, end, u, margin, acc.overlap);
      var acc' := if o > acc.overlap then Choice(Some(u.speaker), o) else acc;
      var tail := turns[1..];
      SelectFromSpec(start, end, tail, margin, acc');
      assert SelectFrom(start, end, turns, margin, acc) == SelectFrom(start, end, tail, margin, acc');
      if forall j :: 0 <= j < |tail| ==> Overlap(start, end, tail[j]) <= acc'.overlap {
        NoneBeatsTail(start, end, turns, acc.overlap);
      } else {
        var k :| FirstMaximal(start, end, tail, k, acc'.overlap)
                 && SelectFrom(start, end, tail, margin, acc')
                    == Choice(Some(tail[k].speaker), Overlap(start, end, tail[k]));
        FirstMaximalShift(start, end, turns, k, acc.overlap);
      }
    }
  }

  /** When no later turn beats the running best after the first turn, the
      first turn is the first maximal one if it beats `floor`, and otherwise
      no turn does. */
  lemma NoneBeatsTail(start: real, end: real, turns: seq<Turn>, floor: real)
    requires turns != []
    requires var o := Overlap(start, end, turns[0]);
             forall j :: 0 <= j < |turns| - 1 ==>
               Overlap(start, end, turns[1..][j]) <= (if o > floor then o else floor)
    ensures var o := Overlap(start, end, turns[0]);
            if o > floor then FirstMaximal(start, end, turns, 0, floor)
            else forall j :: 0 <= j < |turns| ==> Overlap(start, end, turns[j]) <= floor
  {
    forall j | 0 < j < |turns|
      ensures Overlap(start, end, turns[j]) <= Max(Overlap(start, end, turns[0]), floor)
    {
      assert turns[j] == turns[1..][j - 1];
    }
  }

  /** A first maximal turn of the tail that beats the running best is the
      first maximal turn of the whole sequence. */
  lemma FirstMaximalShift(start: real, end: real, turns: seq<Turn>, k: int, floor: real)
    requires turns != []
    requires var o := Overlap(start, end, turns[0]);
             FirstMaximal(start, end, turns[1..], k, if o > floor then o else floor)
    ensures FirstMaximal(start, end, turns, k + 1, floor)
    ensures turns[k + 1] == turns[1..][k]
  {
    var tail := turns[1..];
    forall j | 0 < j < |turns|
      ensures Overlap(start, end, turns[j]) <= Overlap(start, end, tail[k])
      ensures j < k + 1 ==> Overlap(start, end, turns[j]) < Overlap(start, end, tail[k])
    {
      assert turns[j] == tail[j - 1];
    }
  }

  /** For a non-negative margin: no speaker, with overlap 0.0, exactly when
      no turn overlaps the entity by a rounded positive amount; otherwise the
      first turn with the largest overlap, and that overlap. */
  lemma MatchEntitySpec(start: real, end: real, turns: seq<Turn>, margin: real)
    requires margin >= 0.0
    ensures var r := MatchEntity(start, end, turns, margin);
            && (r.speaker.None? <==> forall j :: 0 <= j < |turns| ==> Overlap(start, end, turns[j]) == 0.0)
            && (r.speaker.None? ==> r.overlap == 0.0)
            && (r.speaker.Some? ==>
                  exists k :: FirstMaximal(start, end, turns, k, 0.0)
                              && r == Choice(Some(turns[k].speaker), Overlap(start, end, turns[k])))
  {
    SelectFromSpec(start, end, turns, margin, Choice(None, 0.0));
  }

  lemma {:induction false} SelectFromMarginIrrelevant(start: real, end: real, turns: seq<Turn>,
                                                      m1: real, m2: real, acc: Choice)
    requires m1 >= 0.0 && m2 >= 0.0 && acc.overlap >= 0.0
    ensures SelectFrom(start, end, turns, m1, acc) == SelectFrom(start, end, turns, m2, acc)
    decreases |turns|
  {
    if turns != [] {
      CandidateIrrelevant(start, end, turns[0], m1, acc.overlap);
      CandidateIrrelevant(start, end, turns[0], m2, acc.overlap);
      var o := Overlap(start, end, turns[0]);
      var acc' := if o > acc.overlap then Choice(Some(turns[0].speaker), o) else acc;
      SelectFromMarginIrrelevant(start, end, turns[1..], m1, m2, acc');
    }
  }

  /** Any two non-negative margins give the same matches. */
  lemma MarginIrrelevant<E>(ner: seq<E>, startOf: E -> real, endOf: E -> real, turns: seq<Turn>,
                            m1: real, m2: real)
    requires m1 >= 0.0 && m2 >= 0.0
    ensures MapEntitiesToSpeakers(ner, startOf, endOf, turns, m1)
         == MapEntitiesToSpeakers(ner, startOf, endOf, turns, m2)
  {
    var r1 := MapEntitiesToSpeakers(ner, startOf, endOf, turns, m1);
    var r2 := MapEntitiesToSpeakers(ner, startOf, endOf, turns, m2);
    forall k | 0 <= k < |ner| ensures r1[k] == r2[k] {
      SelectFromMarginIrrelevant(startOf(ner[k]), endOf(ner[k]), turns, m1, m2, Choice(None, 0.0));
    }
  }

  // ---------------------------------------------------------------------
  // speaker_to_name and create_speaker_map

  /** The name an item contributes: `UNKNOWN` for the `UNKNOWN` speaker. */
  function NameFor(x: Matched<Introduction>): string
  {
    if x.matchedSpeaker == Some(Unknown) then Unknown else x.entity.speakerName
  }

  /** `speaker_to_name(items)`: matched speaker (possibly `None`) → name,
      filled in list order so that later items overwrite earlier ones. */
  function SpeakerToName(items: seq<Matched<Introduction>>): (m: map<Option<string>, string>)
    ensures m.Keys == set i | 0 <= i < |items| :: items[i].matchedSpeaker
    ensures Some(Unknown) in m ==> m[Some(Unknown)] == Unknown
  {
    if items == [] then map[]
    else
      var n := |items| - 1;
      var m0 := SpeakerToName(items[..n]);
      assert forall i :: 0 <= i < n ==> items[i] == items[..n][i];
      m0[items[n].matchedSpeaker := NameFor(items[n])]
  }

  /** Item `i` is the last one with key `key`. */
  ghost predicate LastWith(items: seq<Matched<Introduction>>, i: int, key: Option<string>)
  {
    && 0 <= i < |items| && items[i].matchedSpeaker == key
    && forall j :: i < j < |items| ==> items[j].matchedSpeaker != key
  }

  /** Last write wins: every key's name comes from the last item with that
      key. */
  lemma {:induction false} SpeakerToNameLastWins(items: seq<Matched<Introduction>>, key: Option<string>)
    requires key in SpeakerToName(items)
    ensures exists i :: LastWith(items, i, key) && SpeakerToName(items)[key] == NameFor(items[i])
  {
    var n := |items| - 1;
    var init := items[..n];
    var x := items[n];
    SpeakerToNameSnoc(items);
    if key == x.matchedSpeaker {
      assert LastWith(items, n, key);
    } else {
      SpeakerToNameLastWins(init, key);
      var i :| LastWith(init, i, key) && SpeakerToName(init)[key] == NameFor(init[i]);
      LastWithSnoc(items, i, key);
    }
  }

  lemma SpeakerToNameSnoc(items: seq<Matched<Introduction>>)
    requires items != []
    ensures var n := |items| - 1;
            SpeakerToName(items) == SpeakerToName(items[..n])[items[n].matchedSpeaker := NameFor(items[n])]
  {
  }

  lemma LastWithSnoc(items: seq<Matched<Introduction>>, i: int, key: Option<string>)
    requires items != [] && items[|items| - 1].matchedSpeaker != key
    requires LastWith(items[..|items| - 1], i, key)
    ensures LastWith(items, i, key) && items[i] == items[..|items| - 1][i]
  {
  }

  /** The margin `create_speaker_map` uses, in seconds. */
  const MarginSeconds: real := 1.0

  function IntroStart(p: Introduction): real { p.start }

  function IntroEnd(p: Introduction): real { p.end }

  /** `create_speaker_map(video_path, introductions, diarization)`, given
      what the entity model extracts from the introductions. */
  function CreateSpeakerMap(intros: seq<IntroSegment>, extracted: Option<seq<seq<Entry>>>,
                            diarization: seq<Turn>): (r: Result<map<Option<string>, string>>)
    ensures r.Ok? <==> ExtractPersons(intros, extracted).Ok?
  {
    var persons := ExtractPersons(intros, extracted);
    if persons.Raises? then Raises(persons.error)
    else Ok(SpeakerToName(MapEntitiesToSpeakers(persons.value, IntroStart, IntroEnd,
                                                diarization, MarginSeconds)))
  }

  /** Every diarization speaker the map names (other than `UNKNOWN`) gets
      the name of an introduction that overlaps a turn of that speaker by
      the largest positive amount among all turns; the `None` key names an
      introduction that overlaps no turn. */
  lemma CreateSpeakerMapSound(intros: seq<IntroSegment>, extracted: Option<seq<seq<Entry>>>,
                              diarization: seq<Turn>)
    requires CreateSpeakerMap(intros, extracted, diarization).Ok?
    ensures var m := CreateSpeakerMap(intros, extracted, diarization).value;
            var persons := ExtractPersons(intros, extracted).value;
            && (forall id :: Some(id) in m && id != Unknown ==>
                  exists p, k :: p in persons && m[Some(id)] == p.speakerName
                                 && FirstMaximal(p.start, p.end, diarization, k, 0.0)
                                 && diarization[k].speaker == id)
            && (None in m ==>
                  exists p :: p in persons && m[None] == p.speakerName
                              && forall j :: 0 <= j < |diarization| ==>
                                   Overlap(p.start, p.end, diarization[j]) == 0.0)
  {
    var m := CreateSpeakerMap(intros, extracted, diarization).value;
    var persons := ExtractPersons(intros, extracted).value;
    forall id | Some(id) in m && id != Unknown
      ensures exists p, k :: p in persons && m[Some(id)] == p.speakerName
                             && FirstMaximal(p.start, p.end, diarization, k, 0.0)
                             && diarization[k].speaker == id
    {
      SpeakerEntrySound(persons, diarization, id);
    }
    if None in m {
      NoneEntrySound(persons, diarization);
    }
  }

  /** A speaker key of the map (other than `UNKNOWN`) names an introduction
      whose first maximal turn is that speaker's. */
  lemma SpeakerEntrySound(persons: seq<Introduction>, diarization: seq<Turn>, id: string)
    requires var m := SpeakerToName(MapEntitiesToSpeakers(persons, IntroStart, IntroEnd, diarization, MarginSeconds));
             Some(id) in m && id != Unknown
    ensures var m := SpeakerToName(MapEntitiesToSpeakers(persons, IntroStart, IntroEnd, diarization, MarginSeconds));
            exists p, k :: p in persons && m[Some(id)] == p.speakerName
                           && FirstMaximal(p.start, p.end, diarization, k, 0.0)
                           && diarization[k].speaker == id
  {
    var items := MapEntitiesToSpeakers(persons, IntroStart, IntroEnd, diarization, MarginSeconds);
    var m := SpeakerToName(items);
    SpeakerToNameLastWins(items, Some(id));
    var i :| LastWith(items, i, Some(id)) && m[Some(id)] == NameFor(items[i]);
    var p := persons[i];
    MatchEntitySpec(p.start, p.end, diarization, MarginSeconds);
    var k :| FirstMaximal(p.start, p.end, diarization, k, 0.0)
             && MatchEntity(p.start, p.end, diarization, MarginSeconds)
                == Choice(Some(diarization[k].speaker), Overlap(p.start, p.end, diarization[k]));
    assert p in persons;
  }

  /** The `None` key of the map names an introduction that overlaps no turn. */
  lemma NoneEntrySound(persons: seq<Introduction>, diarization: seq<Turn>)
    requires None in SpeakerToName(MapEntitiesToSpeakers(persons, IntroStart, IntroEnd, diarization, MarginSeconds))
    ensures var m := SpeakerToName(MapEntitiesToSpeakers(persons, IntroStart, IntroEnd, diarization, MarginSeconds));
            exists p :: p in persons && m[None] == p.speakerName
                        && forall j :: 0 <= j < |diarization| ==> Overlap(p.start, p.end, diarization[j]) == 0.0
  {
    var items := MapEntitiesToSpeakers(persons, IntroStart, IntroEnd, diarization, MarginSeconds);
    var m := SpeakerToName(items);
    SpeakerToNameLastWins(items, None);
    var i :| LastWith(items, i, None) && m[None] == NameFor(items[i]);
    var p := persons[i];
    MatchEntitySpec(p.start, p.end, diarization, MarginSeconds);
    assert p in persons;
  }

  // ---------------------------------------------------------------------
  // The unit-test cases of the matcher

  /** An entity exactly covering one turn matches it with its length. */
  lemma ExactMatch()
    ensures MatchEntity(55.0, 60.0, [Turn(55.0, 60.0, "SPEAKER_EXACT")], 0.1)
         == Choice(Some("SPEAKER_EXACT"), 5.0)
  {
    Round2OfHundredths(5.0);
  }

  /** An entity far from every turn matches nothing. */
  lemma NoMatch()
    ensures MatchEntity(100.0, 105.0, [Turn(55.0, 60.0, "SPEAKER")], 1.0) == Choice(None, 0.0)
  {
    Round2Zero();
  }

  /** An entity that only the widened turn reaches is a candidate but is not
      matched: its true overlap is zero. */
  lemma MarginOnlyUnmatched()
    ensures Candidate(72.0, 75.0, Turn(55.0, 71.0, "SPEAKER"), 2.0)
    ensures MatchEntity(72.0, 75.0, [Turn(55.0, 71.0, "SPEAKER")], 2.0) == Choice(None, 0.0)
  {
    Round2Zero();
  }

  function TestTurns(): seq<Turn>
  {
    [Turn(3.0, 17.1, "SPEAKER_01"), Turn(17.3, 30.5, "SPEAKER_02"),
     Turn(32.0, 52.79, "SPEAKER_03"), Turn(53.23, 71.20, "SPEAKER_04")]
  }

  /** Patrick at [17.2, 20] reaches the first turn only through the margin
      and matches the second with 2.7 seconds, at margins 1.0 and 0.2. */
  lemma PatrickMatch()
    ensures MatchEntity(17.2, 20.0, TestTurns(), 1.0) == Choice(Some("SPEAKER_02"), 2.7)
    ensures MatchEntity(17.2, 20.0, TestTurns(), 0.2) == Choice(Some("SPEAKER_02"), 2.7)
  {
    var t := TestTurns();
    Round2Zero();
    Round2OfHundredths(2.7);
    assert Overlap(17.2, 20.0, t[0]) == 0.0;
    assert Overlap(17.2, 20.0, t[1]) == 2.7;
    assert Overlap(17.2, 20.0, t[2]) == 0.0;
    assert Overlap(17.2, 20.0, t[3]) == 0.0;
    assert t[1..][1..][1..][1..] == [];
  }
}
