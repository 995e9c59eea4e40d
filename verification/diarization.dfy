/** The nested-turn filter of `identify_speakers`: the pipeline's turns are
    scanned in order with a running maximum of the ends seen so far, and a
    turn survives only if it starts at or after that maximum. The first turn
    only seeds the maximum and is never kept. */
module Diarization {
  import opened Common
  import opened Records

  /** `identify_speakers` returns the surviving turns, or `{}` when anything
      raised, including indexing the first turn of an empty list. */
  datatype Diarized = Turns(turns: seq<Turn>) | EmptyDict

  /** The latest end among the turns of a non-empty sequence. */
  function MaxEnd(s: seq<Turn>): (m: real)
    requires s != []
    ensures forall i :: 0 <= i < |s| ==> s[i].end <= m
    ensures exists i :: 0 <= i < |s| && s[i].end == m
  {
    if |s| == 1 then s[0].end
    else
      var m := Max(MaxEnd(s[..|s| - 1]), s[|s| - 1].end);
      assert forall i :: 0 <= i < |s| - 1 ==> s[..|s| - 1][i] == s[i];
      m
  }

  /** The loop state after the first `n` turns: the turns kept so far and
      `prev_end`. */
  datatype Scan = Scan(kept: seq<Turn>, prevEnd: real)

  /** Turn `a` ends no later than turn `b` starts. */
  predicate Before(a: Turn, b: Turn)
  {
    a.end <= b.start
  }

  /** Kept turns never overlap: each ends no later than every later one
      starts. */
  ghost predicate Disjoint(s: seq<Turn>)
  {
    forall i, j :: 0 <= i < j < |s| ==> Before(s[i], s[j])
  }

  /** The loop of lines `prev_end = ...` to `prev_end = max(...)`, run over
      the first `n` turns. */
  function ScanPrefix(segs: seq<Turn>, n: nat): (st: Scan)
    requires 1 <= n <= |segs|
    ensures st.prevEnd == MaxEnd(segs[..n])
    ensures forall x :: x in st.kept ==> x.end <= st.prevEnd
    ensures Disjoint(st.kept)
    ensures |st.kept| <= n - 1
  {
    if n == 1 then Scan([], segs[0].end)
    else
      var st := ScanPrefix(segs, n - 1);
      var seg := segs[n - 1];
      MaxEndSnoc(segs, n);
      if seg.start >= st.prevEnd then
        DisjointSnoc(st.kept, seg, st.prevEnd);
        Scan(st.kept + [seg], Max(st.prevEnd, seg.end))
      else
        Scan(st.kept, Max(st.prevEnd, seg.end))
  }

  lemma MaxEndSnoc(segs: seq<Turn>, n: nat)
    requires 2 <= n <= |segs|
    ensures MaxEnd(segs[..n]) == Max(MaxEnd(segs[..n - 1]), segs[n - 1].end)
  {
    assert segs[..n][..n - 1] == segs[..n - 1];
  }

  /** A turn that starts after every kept turn has ended may be appended
      without overlap. */
  lemma DisjointSnoc(kept: seq<Turn>, seg: Turn, bound: real)
    requires Disjoint(kept)
    requires forall x :: x in kept ==> x.end <= bound
    requires bound <= seg.start
    ensures Disjoint(kept + [seg])
    ensures forall x :: x in kept + [seg] ==> x.end <= Max(bound, seg.end)
  {
    forall i, j | 0 <= i < j < |kept + [seg]|
      ensures Before((kept + [seg])[i], (kept + [seg])[j])
    {
      if j == |kept| {
        assert kept[i] in kept;
      }
    }
  }

  /** The filter on the turns the pipeline produced. */
  function FilterNested(segs: seq<Turn>): (r: Diarized)
    ensures segs == [] <==> r == EmptyDict
    ensures r.Turns? ==> Disjoint(r.turns) && |r.turns| < |segs|
  {
    if segs == [] then EmptyDict
    else Turns(ScanPrefix(segs, |segs|).kept)
  }

  /** `identify_speakers(video_path, transcript)`; `pipeline` is the
      diarization pipeline's list of turns, or `None` when it raised. */
  function IdentifySpeakers(pipeline: Option<seq<Turn>>): (r: Diarized)
    ensures pipeline.None? ==> r == EmptyDict
    ensures pipeline.Some? ==> r == FilterNested(pipeline.value)
  {
    match pipeline
    case None => EmptyDict
    case Some(segs) => FilterNested(segs)
  }

  /** Turn `j` is not nested: every earlier turn has ended by its start. */
  ghost predicate Clear(segs: seq<Turn>, j: nat)
    requires j < |segs|
  {
    forall i :: 0 <= i < j ==> Before(segs[i], segs[j])
  }

  /** Reference filter: the turns after the first that no earlier turn
      overlaps, in their original order. */
  ghost function ClearTurns(segs: seq<Turn>, n: nat): seq<Turn>
    requires n <= |segs|
  {
    if n <= 1 then []
    else ClearTurns(segs, n - 1) + (if Clear(segs, n - 1) then [segs[n - 1]] else [])
  }

  /** The running maximum decides exactly the reference test. */
  lemma ClearIffAfterMax(segs: seq<Turn>, j: nat)
    requires 1 <= j < |segs|
    ensures Clear(segs, j) <==> segs[j].start >= MaxEnd(segs[..j])
  {
    var p := segs[..j];
    var m := MaxEnd(p);
    if segs[j].start >= m {
      forall i | 0 <= i < j
        ensures Before(segs[i], segs[j])
      {
        assert p[i] == segs[i];
      }
    } else {
      var i :| 0 <= i < |p| && p[i].end == m;
      assert p[i] == segs[i];
      assert !Before(segs[i], segs[j]);
    }
  }

  /** The filter keeps exactly the turns after the first that start no
      earlier than every preceding turn ends. */
  lemma {:induction false} ScanIsClearTurns(segs: seq<Turn>, n: nat)
    requires 1 <= n <= |segs|
    ensures ScanPrefix(segs, n).kept == ClearTurns(segs, n)
  {
    if n > 1 {
      ScanIsClearTurns(segs, n - 1);
      ClearIffAfterMax(segs, n - 1);
    }
  }

  /** The reference filter keeps a subsequence of the turns after the
      first, each exactly when it is clear. */
  lemma {:induction false} ClearTurnsMembers(segs: seq<Turn>, n: nat, x: Turn)
    requires n <= |segs|
    ensures x in ClearTurns(segs, n) <==>
              exists j :: 1 <= j < n && segs[j] == x && Clear(segs, j)
  {
    if n > 1 {
      ClearTurnsMembers(segs, n - 1, x);
      if Clear(segs, n - 1) && segs[n - 1] == x {
        assert x in ClearTurns(segs, n);
      }
    }
  }

  /** What the filter returns, stated without the running maximum. */
  lemma FilterNestedSpec(segs: seq<Turn>)
    requires segs != []
    ensures FilterNested(segs) == Turns(ClearTurns(segs, |segs|))
    ensures forall x :: x in FilterNested(segs).turns <==>
              exists j :: 1 <= j < |segs| && segs[j] == x && Clear(segs, j)
  {
    ScanIsClearTurns(segs, |segs|);
    forall x
      ensures x in FilterNested(segs).turns <==>
                exists j :: 1 <= j < |segs| && segs[j] == x && Clear(segs, j)
    {
      ClearTurnsMembers(segs, |segs|, x);
    }
  }

  /** When the turns are well formed (no turn ends before it starts), the
      kept turns are also in order of start. */
  lemma KeptOrdered(segs: seq<Turn>)
    requires segs != []
    requires forall i :: 0 <= i < |segs| ==> segs[i].start <= segs[i].end
    ensures forall i, j :: 0 <= i < j < |FilterNested(segs).turns| ==>
              FilterNested(segs).turns[i].start <= FilterNested(segs).turns[j].start
  {
    var r := FilterNested(segs).turns;
    FilterNestedSpec(segs);
    forall i | 0 <= i < |r|
      ensures r[i].start <= r[i].end
    {
      assert r[i] in r;
    }
  }

  /** A turn nested in the first one is dropped; one after it is kept. */
  lemma NestedExample()
    ensures IdentifySpeakers(Some([Turn(0.0, 10.0, "A"), Turn(2.0, 4.0, "B"), Turn(10.0, 12.0, "C")]))
         == Turns([Turn(10.0, 12.0, "C")])
  {
    var segs := [Turn(0.0, 10.0, "A"), Turn(2.0, 4.0, "B"), Turn(10.0, 12.0, "C")];
    assert ScanPrefix(segs, 2).kept == [];
    assert ScanPrefix(segs, 2).prevEnd == 10.0;
  }
}
