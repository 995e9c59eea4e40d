/** Maximal runs: the partition of a sequence into consecutive blocks in
    which every element may follow its predecessor, and no block may be
    extended by the first element of the next. Both transcript compressors
    and the Whisper range collapse are greedy scans that build exactly
    these blocks; this module is their common reference. */
module MaximalRuns {
  import opened Common

  function Last<T>(s: seq<T>): T
    requires |s| > 0
  {
    s[|s| - 1]
  }

  /** Every element of `p` may follow its predecessor. */
  ghost predicate Chained<T>(p: seq<T>, link: (T, T) -> bool)
  {
    forall i :: 0 < i < |p| ==> link(p[i - 1], p[i])
  }

  /** How many leading elements of `s` continue a run that ends in `prev`. */
  function ChainLen<T>(prev: T, s: seq<T>, link: (T, T) -> bool): (n: nat)
    ensures n <= |s|
    ensures n > 0 ==> link(prev, s[0])
    ensures forall i :: 0 < i < n ==> link(s[i - 1], s[i])
    ensures n == 0 && |s| > 0 ==> !link(prev, s[0])
    ensures 0 < n < |s| ==> !link(s[n - 1], s[n])
  {
    if s == [] || !link(prev, s[0]) then 0
    else 1 + ChainLen(s[0], s[1..], link)
  }

  /** The maximal runs of `s`, left to right. */
  function Runs<T>(s: seq<T>, link: (T, T) -> bool): (r: seq<seq<T>>)
    ensures |r| <= |s|
    ensures s != [] ==> |r| >= 1
    ensures forall k :: 0 <= k < |r| ==> |r[k]| > 0
    decreases |s|
  {
    if s == [] then []
    else
      var n := 1 + ChainLen(s[0], s[1..], link);
      [s[..n]] + Runs(s[n..], link)
  }

  /** One step of `Runs`: the first run is the head of `s` followed by the
      elements that continue it. */
  lemma RunsUnfold<T>(s: seq<T>, link: (T, T) -> bool)
    requires s != []
    ensures var m := ChainLen(s[0], s[1..], link);
            && [s[0]] + s[1..][..m] == s[..1 + m]
            && s[1..][m..] == s[1 + m..]
            && Runs(s, link) == [s[..1 + m]] + Runs(s[1 + m..], link)
  {
    var m := ChainLen(s[0], s[1..], link);
    assert [s[0]] + s[1..][..m] == s[..1 + m];
  }

  /** When the next element continues the run that ends `p`, the run
      through `p + [e]` reaches exactly as far as the run through `p`. */
  lemma ChainMerge<T>(p: seq<T>, rest: seq<T>, link: (T, T) -> bool)
    requires |p| > 0 && rest != [] && link(Last(p), rest[0])
    ensures var n := ChainLen(Last(p), rest, link);
            && Last(p + [rest[0]]) == rest[0]
            && n == 1 + ChainLen(rest[0], rest[1..], link)
            && (p + [rest[0]]) + rest[1..][..n - 1] == p + rest[..n]
            && rest[1..][n - 1..] == rest[n..]
  {
    var n := ChainLen(Last(p), rest, link);
    assert (p + [rest[0]]) + rest[1..][..n - 1] == p + rest[..n];
  }

  /** When the next element does not continue the run that ends `p`, that
      run is `p` itself and the rest starts the next run. */
  lemma ChainFlush<T>(p: seq<T>, rest: seq<T>, link: (T, T) -> bool)
    requires |p| > 0 && rest != [] && !link(Last(p), rest[0])
    ensures ChainLen(Last(p), rest, link) == 0
    ensures p + rest[..0] == p && rest[0..] == rest
  {
    assert p + rest[..0] == p;
  }

  /** Concatenating the runs gives back the sequence. */
  lemma {:induction false} RunsPartition<T>(s: seq<T>, link: (T, T) -> bool)
    ensures Flatten(Runs(s, link)) == s
    decreases |s|
  {
    if s != [] {
      var n := 1 + ChainLen(s[0], s[1..], link);
      var rest := Runs(s[n..], link);
      assert Runs(s, link) == [s[..n]] + rest by { RunsUnfold(s, link); }
      assert Flatten(rest) == s[n..] by { RunsPartition(s[n..], link); }
      assert Flatten([s[..n]] + rest) == s[..n] + Flatten(rest) by { FlattenCons(s[..n], rest); }
      assert s[..n] + s[n..] == s;
    }
  }

  /** The first run starts with the first element. */
  lemma RunsHead<T>(s: seq<T>, link: (T, T) -> bool)
    requires s != []
    ensures Runs(s, link)[0][0] == s[0]
  {
  }

  /** Inside a run every element may follow its predecessor. */
  lemma {:induction false} RunsChained<T>(s: seq<T>, link: (T, T) -> bool)
    ensures forall k :: 0 <= k < |Runs(s, link)| ==> Chained(Runs(s, link)[k], link)
    decreases |s|
  {
    if s != [] {
      var n := 1 + ChainLen(s[0], s[1..], link);
      var r := Runs(s, link);
      var tail := Runs(s[n..], link);
      assert r == [s[..n]] + tail;
      FirstRunChained(s, link);
      RunsChained(s[n..], link);
      forall k | 0 < k < |r|
        ensures Chained(r[k], link)
      {
        assert r[k] == tail[k - 1];
      }
    }
  }

  lemma FirstRunChained<T>(s: seq<T>, link: (T, T) -> bool)
    requires s != []
    ensures Chained(s[..1 + ChainLen(s[0], s[1..], link)], link)
  {
    var head := s[..1 + ChainLen(s[0], s[1..], link)];
    forall i | 0 < i < |head|
      ensures link(head[i - 1], head[i])
    {
      assert head[i] == s[1..][i - 1];
      if i > 1 {
        assert head[i - 1] == s[1..][i - 2];
      }
    }
  }

  /** No run can be extended by the first element of the next one. */
  lemma {:induction false} RunsMaximal<T>(s: seq<T>, link: (T, T) -> bool)
    ensures forall k :: 0 <= k < |Runs(s, link)| - 1 ==>
              !link(Last(Runs(s, link)[k]), Runs(s, link)[k + 1][0])
    decreases |s|
  {
    if s != [] {
      var n := 1 + ChainLen(s[0], s[1..], link);
      var r := Runs(s, link);
      var tail := Runs(s[n..], link);
      assert r[1..] == tail;
      RunsMaximal(s[n..], link);
      if n < |s| {
        RunsHead(s[n..], link);
        assert Last(r[0]) == s[n - 1];
        assert !link(s[n - 1], s[n]);
      }
      forall k | 0 <= k < |r| - 1
        ensures !link(Last(r[k]), r[k + 1][0])
      {
        if k > 0 {
          assert r[k] == tail[k - 1] && r[k + 1] == tail[k];
        }
      }
    }
  }

  /** The last run ends with the last element. */
  lemma {:induction false} RunsLast<T>(s: seq<T>, link: (T, T) -> bool)
    requires s != []
    ensures Last(Last(Runs(s, link))) == Last(s)
    decreases |s|
  {
    var n := 1 + ChainLen(s[0], s[1..], link);
    var rest := Runs(s[n..], link);
    assert Runs(s, link) == [s[..n]] + rest;
    if n < |s| {
      RunsLast(s[n..], link);
      LastCons(s[..n], rest);
    }
  }

  lemma LastCons<T>(a: T, rest: seq<T>)
    requires rest != []
    ensures Last([a] + rest) == Last(rest)
  {
  }

  /** The run decomposition of a sequence whose neighbours never link is
      the sequence of singletons. */
  lemma {:induction false} RunsOfUnlinked<T>(s: seq<T>, link: (T, T) -> bool)
    requires forall i :: 0 < i < |s| ==> !link(s[i - 1], s[i])
    ensures |Runs(s, link)| == |s|
    ensures forall k :: 0 <= k < |s| ==> Runs(s, link)[k] == [s[k]]
  {
    if s != [] {
      assert ChainLen(s[0], s[1..], link) == 0;
      RunsOfUnlinked(s[1..], link);
    }
  }
}
