# Reconciliation core of multistep-transcriber, in Dafny

multistep-transcriber turns a meeting video into a speaker-attributed,
topic-segmented transcript. Several machine-learning models do the
recognition work: Whisper transcribes, pyannote diarizes, GLiNER finds
entities, a classifier finds introductions, and an LLM writes headlines. This
project models the deterministic code that reconciles their outputs. Each
model is a parameter of the Dafny functions.

| module (file) | what it models |
|---|---|
| `Common` (common.dfy) | `Option`, `Result` (a value or a raised Python exception), Python's `round(x, 2)`, `str.strip`, `str.lower` on ASCII and Latin-1 capitals, `sep.join` |
| `Records` (records.dfy) | transcript segments, diarization turns, labelled slices |
| `Sorting` (sorting.dfy) | Python's stable `sorted(key=start)` |
| `MaximalRuns` (runs.dfy) | partition of a list into maximal runs of linked neighbours; the reference for all three greedy run scanners |
| `Sweep` (sweep.dfy) | `merge_transcript_diarization`, the two-pointer sweep that aligns text with speaker turns |
| `Compress` (compress.dfy) | `compress_transcript`, both the current and the older version |
| `Transcription` (transcription.dfy) | the range collapse of `initial_transcription` |
| `Diarization` (diarization.dfy) | the nested-turn filter of `identify_speakers` |
| `Introductions` (introductions.dfy) | `map_entities_to_speakers`, `speaker_to_name`, `create_speaker_map` |
| `SpeakerNames` (speakernames.dfy) | `map_speakers` |
| `Topics` (topics.dfy) | `update_transcript_with_topics`, topic grouping, and per-topic LLM outputs |
| `Entities` (entities.dfy) | `group_by_label`, `flatten_texts`, `merge_duplicate_texts`, the older `merge_similar_texts`, batched `extract_entities`, `extract_persons` |
| `Caching` (caching.dfy) | the cache-file decorators and `clear_cache_directory`, over a file system modelled as a map from path to node |
| `Retokenizer` (retokenizer.dfy) | `merge_transcript_segments`: maps spaCy sentences back to segment timestamps |

Times are exact reals. Python's `round(x, 2)` is modelled as rounding the exact
real to the nearest hundredth, with ties going to the even hundredth. An
exception that the source catches becomes the value the source returns in
that case. An exception that escapes becomes `Raises(<class name>)`.

Where the code and its written description disagree, the model follows the code:

- **Sweep with an empty input.** When either input is empty, the sweep returns the sorted transcript (or `[]`) without speaker fields. It does not label every segment `UNKNOWN`.
- **Margin-edge test.** The matcher keeps a turn only when the rounded actual overlap is positive. The widened (margin) interval alone never matches. So the margin-edge test at `mst/steps/tests/test_helpers.py:74-90` expects a match that the code does not produce (`Introductions.MarginOnlyUnmatched`).
- **First topic number.** Topic numbers start at 1, not 0, when the first transition flag is 1.
- **`..append` line.** `mst/steps/entities.py:60` reads `result[label]..append(...)`, which is a syntax error. It is modelled as `.append`.
- **Stop list.** The current stop list lacks a comma between `'somebody'` and `'today'`. Its entry is therefore `'somebodytoday'`, so neither word is filtered. The older stop list's `'I'` can never match a lower-cased text.
- **Retokenizer positions.** The position advances by the length of the stripped sentence. The start-segment search keeps the last index that matches, which is the only one because the offsets never decrease.
- **Older cache decorators.** The copies in `video_processing_helpers/caching.py` have no `if video_path:` guard. `None` raises `TypeError`, and `""` uses `.d/cache<ext>`.

## Model

| member | source | states |
|---|---|---|
| Common.Round2 | mst/steps/helpers.py:142 | `round(x, 2)` is within half a hundredth of `x` and is a whole number of hundredths |
| Common.Round2Idempotent | mst/steps/helpers.py:147 | rounding an already rounded duration changes nothing |
| Common.StripEmptyIffAllSpace | mst/steps/topic_segmentation.py:31 | `text.strip()` is empty exactly when every character of the text is whitespace (the blank-topic test) |
| Common.LStripSuffix | mst/steps/transcription.py:69 | `lstrip` keeps a suffix of its argument and drops only whitespace |
| Common.RStripPrefix | mst/steps/transcription.py:69 | `rstrip` keeps a prefix of its argument and drops only whitespace |
| Sorting.SortBy | mst/steps/helpers.py:34-35 | the sorted list is ordered by start and is a permutation of the input |
| Sorting.SortIsStable | mst/steps/helpers.py:34-35 | entries with equal start keep their input order (Python's sort is stable) |
| Sorting.SortOfSorted | mst/steps/helpers.py:33-35 | sorting a list already in start order returns it unchanged |
| MaximalRuns.RunsPartition | mst/steps/helpers.py:125-148 | concatenating the runs built by a greedy scan gives back the input |
| MaximalRuns.RunsChained | mst/steps/helpers.py:129-139 | inside a run every entry continues its predecessor |
| MaximalRuns.RunsMaximal | mst/steps/helpers.py:140-145 | a run is closed only when the next entry does not continue it |
| MaximalRuns.RunsOfUnlinked | mst/steps/helpers.py:140-145 | when no neighbours link, every entry is its own run |
| Sweep.NextEnd | mst/steps/helpers.py:56-61 | the next boundary is the earlier end of the active entry and the active turn, and it is one of them |
| Sweep.Emit | mst/steps/helpers.py:63-94 | a turn that ends before the entry starts (or no entry left) yields silence with the turn's speaker; otherwise the entry's text, with the turn's speaker if the turn touches the entry and `UNKNOWN` if not; duration is end minus start |
| Sweep.SweepFrom | mst/steps/helpers.py:51-102 | the slices are contiguous, each duration is its length, every slice is attributed, and there are no more slices than remaining entries plus turns |
| Sweep.MergeTranscriptDiarization | mst/steps/helpers.py:15-104 | an empty transcript gives `[]`; an empty diarization gives the sorted transcript unlabelled; otherwise contiguous labelled slices, at most one per entry plus one per turn |
| Sweep.SweepStart | mst/steps/helpers.py:45 | the first slice starts at the earliest start of any entry or turn, and that start is attained |
| Sweep.SweepAttribution | mst/steps/helpers.py:63-94 | every slice is silence or carries some entry's text; its speaker is `UNKNOWN` or belongs to a turn, and for text to a turn that touches the entry |
| Sweep.SweepExample | video_processing_helpers/helpers.py:11-87 | an entry overlapped by a longer turn takes the turn's speaker, and the turn's tail becomes a silence slice |
| Compress.FirstLongest | mst/steps/helpers.py:136-139 | the strict `>` keeps the speaker of the first entry with the largest duration |
| Compress.CompressTranscript | mst/steps/helpers.py:122-123 | the output is empty exactly when the input is |
| Compress.CompressIsRunSummaries | mst/steps/helpers.py:107-150 | one entry per maximal run of same-text, time-contiguous entries: first start, last end, the first longest entry's speaker, the total duration rounded to hundredths |
| Compress.CompressSizeAndSpan | mst/steps/helpers.py:125-148 | never more entries than the input; the output spans the first start to the last end |
| Compress.CompressLeavesNothingMergeable | mst/steps/helpers.py:131-132 | no two neighbouring output entries could be merged again |
| Compress.CompressRounded | mst/steps/helpers.py:142-147 | every output duration is a whole number of hundredths |
| Compress.CompressFixedPoint | mst/steps/helpers.py:129-148 | a transcript with no mergeable neighbours and rounded durations compresses to itself |
| Compress.CompressIdempotent | mst/steps/helpers.py:107-150 | compressing twice gives the same result as compressing once |
| Compress.CompressExample | mst/steps/tests/test_helpers.py:247-270 | two contiguous repeats become one entry with the longer one's speaker and duration 3.51 |
| Compress.LegacyIsRunSummaries | video_processing_helpers/helpers.py:89-118 | the older compressor emits each run's first entry with only its end stretched to the run's last end |
| Compress.LegacySizeSpanAndFields | video_processing_helpers/helpers.py:97-114 | the older compressor's speaker and duration stay those of the run's first entry, because its `speaker` and `duration` locals are never written back |
| Compress.LegacyLeavesNothingMergeable | video_processing_helpers/helpers.py:102-103 | the older compressor also leaves no mergeable neighbours |
| Compress.LegacyFixedPoint | video_processing_helpers/helpers.py:100-116 | a transcript with no mergeable neighbours is its own older compression |
| Compress.LegacyIdempotent | video_processing_helpers/helpers.py:89-118 | the older compressor is idempotent |
| Transcription.InitialTranscription | mst/steps/transcription.py:52-90 | `None` exactly when transcription raised; never more ranges than segments; empty exactly when there are no segments |
| Transcription.CollapseIsRunRanges | mst/steps/transcription.py:61-86 | the collapse emits one range per maximal run of identical raw text |
| Transcription.CollapseSpec | mst/steps/transcription.py:61-86 | each range spans its run's first start to last end; its segments share one text, stripped for every range but the last; neighbouring runs differ in text |
| Transcription.RepeatExample | mst/steps/transcription.py:61-86 | a line repeated three times becomes one range ending at the third repeat |
| Diarization.FilterNested | mst/steps/diarization.py:43-54 | no turns give `{}` (the caught `IndexError`); the kept turns are pairwise disjoint and fewer than the input |
| Diarization.IdentifySpeakers | mst/steps/diarization.py:26-54 | a failing pipeline gives `{}`; otherwise the result is the filter's |
| Diarization.ClearIffAfterMax | mst/steps/diarization.py:44-49 | comparing with the running maximum end is the same as starting after every earlier turn ends |
| Diarization.FilterNestedSpec | mst/steps/diarization.py:43-51 | a turn is kept exactly when it is not the first and starts no earlier than every earlier turn ends |
| Diarization.KeptOrdered | mst/steps/diarization.py:46-49 | kept turns are in start order when each turn ends after it starts |
| Diarization.NestedExample | mst/steps/diarization.py:43-51 | a turn nested in the first is dropped, and so is the first turn itself |
| Introductions.Overlap | mst/steps/introductions.py:97-100 | the rounded actual overlap is non-negative, and positive only when the intervals really intersect |
| Introductions.MapEntitiesToSpeakers | mst/steps/introductions.py:46-111 | one result per entity, in order, each the entity with its own best match |
| Introductions.CandidateIrrelevant | mst/steps/introductions.py:91-104 | with margin at least 0, a widened-interval test never rejects a turn with positive overlap |
| Introductions.SelectFromSpec | mst/steps/introductions.py:81-104 | the scan returns the first turn whose overlap is maximal and beats the floor, or leaves the state alone when none does |
| Introductions.MatchEntitySpec | mst/steps/introductions.py:78-107 | no speaker exactly when every overlap is 0, with overlap 0; otherwise the first turn of maximal positive overlap |
| Introductions.MarginIrrelevant | mst/steps/introductions.py:86-104 | any two non-negative margins give identical results |
| Introductions.SpeakerToName | mst/steps/introductions.py:28-43 | the keys are exactly the matched speakers (including `None`); `UNKNOWN` maps to `UNKNOWN` |
| Introductions.SpeakerToNameLastWins | mst/steps/introductions.py:33-42 | each key's name comes from the last item matched to that key |
| Introductions.CreateSpeakerMap | mst/steps/introductions.py:116-125 | the map is built exactly when `extract_persons` does not raise |
| Introductions.CreateSpeakerMapSound | mst/steps/introductions.py:114-125 | every named speaker ID (other than `UNKNOWN`) is the best-overlapping turn of an introduced person with that name; the `None` key names a person with no overlapping turn |
| Introductions.PatrickMatch | mst/steps/tests/test_helpers.py:28-54 | an introduction at 17.2–20.0 s matches `SPEAKER_02` with overlap 2.7, with margin 1.0 and with margin 0.2 |
| Introductions.ExactMatch | mst/steps/tests/test_helpers.py:57-72 | identical intervals match with the full overlap |
| Introductions.MarginOnlyUnmatched | mst/steps/tests/test_helpers.py:74-90 | an entity inside the margin but outside the turn passes the candidate test yet stays unmatched with overlap 0 |
| Introductions.NoMatch | mst/steps/tests/test_helpers.py:92-108 | an entity far from every turn stays unmatched |
| SpeakerNames.MapSpeakers | mst/steps/helpers.py:165 | every slice is kept, in order, named by the map when its speaker is a key and by its speaker ID otherwise |
| SpeakerNames.NamesTraceToIntroductions | video_processing_helpers/helpers.py:123-125 | with a map from `create_speaker_map`, a slice's name is its own speaker ID or an introduced person's name whose best turn has that speaker; `UNKNOWN` stays `UNKNOWN` |
| Topics.AnnotateSpec | mst/steps/topic_segmentation.py:157-161 | entry `k` gets the starting topic plus the number of 1-flags among the first `k + 1` flags, and nothing else changes |
| Topics.UpdateTranscriptWithTopics | mst/steps/topic_segmentation.py:143-163 | `ValueError` exactly when the lengths differ; otherwise every entry is kept and gets the number of 1-flags up to and including its own |
| Topics.TopicSteps | video_processing_helpers/topic_segmentation.py:33-37 | the first topic is 1 if the first flag is 1 and 0 otherwise; each later topic rises by exactly one at a 1-flag and stays the same otherwise |
| Topics.MaxTopic | mst/steps/topic_segmentation.py:66-75 | `None` exactly when no entry has a topic; otherwise the largest topic, which some entry has |
| Topics.Blanks | mst/steps/topic_segmentation.py:76 | `[""] * n` has `max(n, 0)` empty strings |
| Topics.GroupTopicTexts | mst/steps/topic_segmentation.py:61-96 | `None` when there are no entries, no topics, or a negative largest topic; otherwise one group per topic number from 0 to the largest |
| Topics.AccumulateAllSpec | mst/steps/topic_segmentation.py:78-85 | after the loop, group `k` is the texts of topic `k` joined by single spaces, with empty texts before the first non-empty one absorbed |
| Topics.GroupTopicTextsSpec | mst/steps/topic_segmentation.py:61-88 | each group is exactly the joined text of its topic number |
| Topics.GenerateFrom | mst/steps/topic_segmentation.py:26-54 | one output per remaining group |
| Topics.GenerateIsMap | mst/steps/topic_segmentation.py:30-52 | the outputs are, in order, the answers for each group: `""` for a blank group, the stripped reply, or the error text for a failed call |
| Topics.GenerateOutputs | mst/steps/topic_segmentation.py:30-52 | output `i` is the answer for group `i`, with topic number `i` |
| Topics.GeneratePrompts | mst/steps/topic_segmentation.py:30-46 | the model is asked once per non-blank group, in order, with the template, the separator and the text |
| Topics.GenerateTopicOutputs | mst/steps/topic_segmentation.py:26-28 | no groups give no outputs and no model calls |
| Topics.CreateTopicOutputs | mst/steps/topic_segmentation.py:56-96 | `None` exactly when there are no groups; otherwise one output per topic number |
| Topics.CreateTopicOutputsSpec | mst/steps/topic_segmentation.py:56-96 | output `k` is the model's answer for the joined text of topic `k` |
| Entities.AddTo | mst/steps/entities.py:58-60 | appending to a label adds that label at the end when it is new, appends the pair to that label's list, and changes no other list |
| Entities.GroupByLabel | mst/steps/entities.py:34-62 | labels appear once each; a label's list is that label's dict entries, in order, as `{text, score}` |
| Entities.GroupByLabelCount | mst/steps/entities.py:48-60 | every dict entry lands in exactly one list |
| Entities.GroupEntriesTags | mst/steps/entities.py:51-59 | a label is a key exactly when some dict entry carries it |
| Entities.FlattenTexts | mst/steps/helpers.py:167-182 | one text per stored pair |
| Entities.FlattenGroupedIsPermutation | video_processing_helpers/entities.py:41-47 | grouping and then flattening only reorders the texts of the dict entries |
| Entities.FirstPos | mst/steps/entities.py:91-95 | index of the first pair with a text, or the length |
| Entities.Upsert | mst/steps/entities.py:91-95 | a new text is appended with its score; a known text keeps its place and takes the larger score; texts stay distinct |
| Entities.DedupeTexts | mst/steps/entities.py:83-99 | a text survives exactly when it occurs and its lower case is not a stop word |
| Entities.DedupeScores | mst/steps/entities.py:91-95 | each survivor is an input pair whose score is the largest among pairs with its text |
| Entities.DedupeOrder | mst/steps/entities.py:91-99 | survivors are in order of first appearance |
| Entities.MergeDuplicateTexts | mst/steps/entities.py:64-101 | every label is kept, in order, with its list de-duplicated |
| Entities.KeptWhenNotStop | mst/steps/entities.py:87-95 | a text whose lower case is no stop word survives when it occurs |
| Entities.DroppedWhenStop | mst/steps/entities.py:87-90 | a text whose lower case is a stop word never survives |
| Entities.SomebodyTodayKept | mst/steps/entities.py:88-89 | with the missing comma, "somebody" and "today" survive whenever they occur, and "somebodytoday" never does |
| Entities.MergeSimilarTextsExample | video_processing_helpers/entities.py:50-78 | the older version keeps "I", drops "he", keeps one "Ann" for two mentions, and joins the survivors of every label, label by label, with commas: `I,Ann,Rome` |
| Entities.LegacyNeverDropsI | video_processing_helpers/entities.py:65 | the older stop list never removes "I" or "i", because a lower-cased text never equals `'I'` |
| Entities.Contribution | mst/steps/entities.py:202-228 | a batch adds its lists; a raising, `None` or empty batch adds nothing |
| Entities.Sentences | mst/steps/entities.py:173 | only present, non-empty `transcript` fields are kept, in order |
| Entities.BatchesPartition | mst/steps/entities.py:187-192 | batches are non-empty, at most `batch_size` long (all but the last exactly that), and concatenate to the sentences |
| Entities.BatchLoopIsBatches | mst/steps/entities.py:187-215 | the index loop calls the model on exactly these batches and concatenates their contributions in order |
| Entities.ExtractEntities | mst/steps/entities.py:146-237 | an empty transcript gives `[]`; a model that fails to load gives `None`; no sentences give `[]`; batch size 0 gives `None` (the division in `math.ceil(total_sentences / batch_size)` raises `ZeroDivisionError`, caught at line 233); a negative batch size gives `[]` |
| Entities.ExtractEntitiesBatches | mst/steps/entities.py:183-231 | with a positive batch size the result is the batches' contributions in order, one list per sentence when no batch fails |
| Entities.CollectLength | mst/steps/entities.py:204-215 | batches that each return one list per sentence give one list per sentence overall |
| Entities.FirstNames | mst/steps/entities.py:281-285 | the first text of every non-empty list; raises exactly when some element is not a dict |
| Entities.Pair | mst/steps/entities.py:286 | `zip` pairs introduction `k` with name `k`, as many as the shorter list |
| Entities.ExtractPersons | mst/steps/entities.py:265-287 | no introductions give `[]`; a `None` extraction raises |
| Entities.ExtractPersonsPairs | mst/steps/entities.py:279-287 | person `k` is introduction `k` with the `k`-th name found |
| Entities.ExtractPersonsShift | mst/steps/entities.py:282-286 | a missing name shifts the next introduction's name onto the earlier introduction |
| Caching.Resolve | mst/steps/caching.py:57 | following links ends at a path that is not a link, or fails on a chain that is too long |
| Caching.ReadFile | mst/steps/caching.py:59-60 | reading succeeds exactly when the path resolves to a regular file |
| Caching.WriteFile | mst/steps/caching.py:71-72 | writing creates or truncates the file the path resolves to |
| Caching.MakeDirs | mst/steps/caching.py:8 | `makedirs(exist_ok=True)` succeeds exactly when the path is a directory or free, and leaves a directory there |
| Caching.RFind | mst/steps/caching.py:6 | the last index of the character, or -1 |
| Caching.SplitExt | mst/steps/caching.py:6 | root plus extension is the path; the extension is empty or a dot followed by neither `/` nor `.` |
| Caching.CacheDir | mst/steps/caching.py:5-9 | the cache directory is the root of the path plus `.d` |
| Caching.CacheFile | mst/steps/caching.py:11-14 | the cache file is `cache<ext>` inside the cache directory |
| Caching.StoreText | mst/steps/caching.py:63-74 | a falsy result is reported as `<name> failed`, and with no path the result is returned without storing |
| Caching.CachedFile | mst/steps/caching.py:41-77 | a falsy path skips the cache entirely |
| Caching.StoreObject | mst/steps/caching.py:99-106 | with no path the result is returned without storing |
| Caching.CachedFileObject | mst/steps/caching.py:79-108 | a falsy path skips the cache entirely |
| Caching.CachedFileUnguarded | video_processing_helpers/caching.py:4-42 | a `None` path raises `TypeError` |
| Caching.CachedFileObjectUnguarded | video_processing_helpers/caching.py:44-75 | a `None` path raises `TypeError` |
| Caching.ClearCacheDirectory | mst/steps/caching.py:16-38 | clearing succeeds exactly when the cache directory can be created |
| Caching.ClearSpec | mst/steps/caching.py:24-36 | exactly the regular files and links directly inside the cache directory are removed; everything else, the directory included, stays |
| Caching.WriteThenRead | mst/steps/caching.py:70-72 | a written file reads back as what was written, and no other path resolves differently |
| Caching.WriteKeepsDir | mst/steps/caching.py:70-72 | writing the cache file keeps the cache directory a directory |
| Caching.SameStemSameCache | mst/steps/caching.py:5-14 | two paths with the same root share every cache file |
| Caching.StagesDoNotCollide | mst/steps/caching.py:11-14 | different stage extensions never share a cache file |
| Caching.ExtensionCollision | mst/steps/caching.py:5-14 | `v.mp4` and `v.mkv` share one cache directory and therefore every cache file |
| Caching.CacheFileOfStem | mst/steps/caching.py:5-14 | the cache file of `stem.e` is `stem.d/cache<ext>` |
| Caching.DotFileHasNoExtension | mst/steps/caching.py:6 | a leading dot does not start an extension |
| Caching.CachedFileHit | mst/steps/caching.py:53-60 | on a hit the stored text is returned and the stage is not run |
| Caching.CachedFileMissThenHit | mst/steps/caching.py:52-74 | after a miss that stores a truthy result, the next call returns that text without running the stage |
| Caching.CachedFileFailureNotStored | mst/steps/caching.py:63-67 | a falsy result is reported as failed, nothing is stored, and the next call runs the stage again |
| Caching.CachedObjectMissThenHit | mst/steps/caching.py:88-106 | an object result is stored and, when it survives the JSON round trip, returned by the next call without running the stage |
| Caching.UnguardedAgrees | video_processing_helpers/caching.py:15-39 | with a non-empty path the two copies of each decorator behave the same |
| Caching.UnguardedEmptyPathHits | video_processing_helpers/caching.py:15-26 | with an empty path the older copy reads `.d/cache<ext>`, while the guarded copy runs the stage |
| Retokenizer.CumulativeLengths | video_processing_helpers/merge_sentences.py:26-31 | one offset per segment plus the final length |
| Retokenizer.CumulativePrefix | video_processing_helpers/merge_sentences.py:26-31 | offset `i` is the total length of the texts before segment `i` |
| Retokenizer.CumulativeLengthsShape | video_processing_helpers/merge_sentences.py:26-31 | offsets start at 0, never decrease, and end at the length of the joined text |
| Retokenizer.StartIndex | video_processing_helpers/merge_sentences.py:46-48 | the last segment whose span holds the position, or none |
| Retokenizer.EndIndex | video_processing_helpers/merge_sentences.py:46-50 | the last segment whose span ends at or after the position and starts before it, or none |
| Retokenizer.StartIndexFound | video_processing_helpers/merge_sentences.py:46-48 | a start segment exists exactly for positions inside the text, and it is the only one that holds the position |
| Retokenizer.EndIndexFound | video_processing_helpers/merge_sentences.py:49-50 | an end segment exists exactly for positions in `(0, length]`, and it is unique |
| Retokenizer.Place | video_processing_helpers/merge_sentences.py:38-68 | the position advances by the sentence's length; at most one segment is added; `IndexError` exactly when a negative start must correct an empty output |
| Retokenizer.PlaceAll | video_processing_helpers/merge_sentences.py:38-68 | at most one output per sentence, and the output stays ordered |
| Retokenizer.StripAll | video_processing_helpers/merge_sentences.py:23 | every sentence is stripped |
| Retokenizer.MergeTranscriptSegments | video_processing_helpers/merge_sentences.py:4-70 | the output is ordered and has at most one segment per sentence |
| Retokenizer.PlaceAllTexts | video_processing_helpers/merge_sentences.py:60-65 | every output text is one of the sentences |
| Retokenizer.MergeTexts | video_processing_helpers/merge_sentences.py:23-65 | every output text is a stripped sentence |
| Retokenizer.MergeSucceeds | video_processing_helpers/merge_sentences.py:53-59 | with non-negative starts the merge never raises |
| Retokenizer.NegativeStartRaises | video_processing_helpers/merge_sentences.py:55-59 | a first sentence starting before 0.0 makes `merged_segments[-1]` raise `IndexError` |
| Retokenizer.DroppedBeyondText | video_processing_helpers/merge_sentences.py:53-68 | a sentence beyond the joined text is dropped and only moves the position |
| Retokenizer.OrdinaryPlacement | video_processing_helpers/merge_sentences.py:40-68 | a sentence that starts at or after the previous end is appended with its text, the start of the segment holding its first character and the end of the segment holding its last; the position advances by its length and the earlier output is unchanged |
| Retokenizer.MidpointCorrection | video_processing_helpers/merge_sentences.py:54-66 | an overlapping sentence starts at the midpoint, and the previous output now ends there |
| Retokenizer.MergeOfOwnSentences | video_processing_helpers/merge_sentences.py:26-70 | a transcript of back-to-back, already stripped segments, split into its own texts, maps back to itself |

## Left out

- The models are parameters, not code: Whisper, pyannote, GLiNER, the SetFit introduction classifier, TreeSeg, spaCy's sentencizer and the Ollama LLM. Their results are inputs. The model loaders (`get_*_model`, `get_diarization_pipeline`) become a "ready or failed" flag.
- Common.Lower: lower-cases only ASCII and Latin-1 capitals, one character to one. Python's `str.lower` covers all of Unicode and can change the length (`'İ'.lower()` has two characters). Its only use is the stop-list membership test in `Entities`. Every stop word is lower-case ASCII. Outside these ranges, Python lowers only U+212A (Kelvin sign, to `k`) to a single ASCII character; `'İ'` gives `i` plus a combining dot, which is not ASCII. No stop word contains `k`, so the filter's answers are unaffected.
- Floating point is exact reals. `float('inf')` in the sweep never survives a `min` when at least one list is active, so it is not represented.
- Printing, logging and `traceback.print_exc` have no observable effect on results and are left out.
- Caching: JSON fidelity is a `dump`/`load` pair given by the caller, and `load` may fail. Paths are whole strings, with no component-wise link resolution or `..` normalisation. `makedirs` does not create missing parents. The cached function's result is an input, so exceptions it raises are not modelled.
- Caching.Resolve: link chains are followed for at most 40 hops (Linux `MAXSYMLINKS`); a longer chain counts as missing.
- Entities: the LLM branch of the current `merge_similar_texts` (mst/steps/entities.py:105-140) asks a model for canonical spellings. It has no deterministic content to model.
- Entities.MergeSimilarTexts (the older one, video_processing_helpers/entities.py:50-78): no ensures of its own. It joins, with commas, the output of `FlattenTexts` applied to `MergeDuplicateTexts` with the older stop list, and both of those carry the proved contracts. `Entities.MergeSimilarTextsExample` fixes one input and its output.
- Introductions.MatchEntitySpec: stated only for margins at least 0, the range every caller uses (0.5 by default, 1.0 in `create_speaker_map`). With a negative margin the widened test can reject a turn with positive overlap.
- Retokenizer: the round trip "the sentences' texts rejoin to the input" is not a property of the code, which drops sentences beyond the text and strips each one. The narrower round trip `MergeOfOwnSentences` is proved instead.
- `format.py`, `standardize.py`, the video transcriber drivers, `ingestion.py` and the download scripts are orchestration or output formatting, outside the reconciliation core.
- The `video_processing_helpers` copies of `initial_transcription` and `identify_speakers` are not modelled. Each assigns a module-level model variable inside the function, so Python treats it as local, and the first read raises `UnboundLocalError`. Their handlers then always return `None` and `{}`. The `mst` versions are modelled instead.
- Topics.UpdateTranscriptWithTopics: the source annotates the caller's list in place and returns that same list. The model returns a new sequence and does not model the aliasing; the callers only use the returned value.
- Topics.GenerateIsMap: the Ollama call is a deterministic parameter `llm`, so two groups with identical prompts get identical answers. The real model call does not promise this. No proved property depends on it beyond the order and shape of the outputs.
- Topics: `segment_topics` only calls TreeSeg and then `update_transcript_with_topics`. It is modelled by the latter, with the flags as input.
