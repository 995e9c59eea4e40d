/** The time-stamped records the pipeline passes between stages. Times are
    seconds on the media timeline, as exact reals. */
module Records {

  /** A transcript entry `{start, end, transcript}`. */
  datatype Segment = Segment(start: real, end: real, text: string)

  /** A diarization turn `{start, end, speaker}`. */
  datatype Turn = Turn(start: real, end: real, speaker: string)

  /** A speaker-labelled transcript entry
      `{start, end, transcript, speaker, duration}`. */
  datatype Slice = Slice(start: real, end: real, text: string, speaker: string, duration: real)

  /** The filler text of a slice during which nobody is transcribed. */
  const Silence: string := "[SILENCE]"

  /** The speaker label used when no diarization turn applies. */
  const Unknown: string := "UNKNOWN"

  function SegmentStart(s: Segment): real { s.start }

  function TurnStart(t: Turn): real { t.start }
}
