/** Post-processing of named-entity predictions: grouping by label,
    de-duplication with the maximum score and a stop list, the batching loop
    around the entity model, and the pairing of introductions with the first
    person name found in each. The entity model itself is a parameter. */
module Entities {
  import opened Common

  /** One prediction `{text, label, score}` (its character offsets are not
      used by the code modelled here). */
  datatype Entity = Entity(text: string, tag: string, score: real)

  /** An element of a per-sentence prediction list: a dict, or anything else
      (which grouping skips). */
  datatype Entry = Dict(entity: Entity) | NotDict

  /** A `{text, score}` pair. */
  datatype Scored = Scored(text: string, score: real)

  /** One key of the label dictionary with its list, dictionary order being
      the order of the sequence of groups. */
  datatype Group = Group(tag: string, members: seq<Scored>)

  ghost predicate Distinct<T>(s: seq<T>)
  {
    forall i, j :: 0 <= i < j < |s| ==> s[i] != s[j]
  }

  function Tags(g: seq<Group>): (r: seq<string>)
    ensures |r| == |g| && forall i :: 0 <= i < |g| ==> r[i] == g[i].tag
  {
    if g == [] then [] else [g[0].tag] + Tags(g[1..])
  }

  /** `d.get(tag, [])`: the list of the first group with that tag. */
  function Members(g: seq<Group>, tag: string): seq<Scored>
  {
    if g == [] then []
    else if g[0].tag == tag then g[0].members
    else Members(g[1..], tag)
  }

  function Texts(s: seq<Scored>): (r: seq<string>)
    ensures |r| == |s| && forall i :: 0 <= i < |s| ==> r[i] == s[i].text
  {
    if s == [] then [] else [s[0].text] + Texts(s[1..])
  }

  // ---------------------------------------------------------------------
  // group_by_label

  /** `result.setdefault(tag, []).append(x)` on the label dictionary. */
  function AddTo(g: seq<Group>, tag: string, x: Scored): (r: seq<Group>)
    ensures Tags(r) == if tag in Tags(g) then Tags(g) else Tags(g) + [tag]
    ensures forall l :: Members(r, l) == Members(g, l) + (if l == tag then [x] else [])
  {
    if g == [] then [Group(tag, [x])]
    else if g[0].tag == tag then [g[0].(members := g[0].members + [x])] + g[1..]
    else
      var rest := AddTo(g[1..], tag, x);
      assert ([g[0]] + rest)[1..] == rest;
      [g[0]] + rest
  }

  /** The dict entries of `es` that carry `tag`, as `{text, score}`. */
  function Project(es: seq<Entry>, tag: string): (r: seq<Scored>)
  {
    if es == [] then []
    else
      var e := es[|es| - 1];
      Project(es[..|es| - 1], tag)
        + (if e.Dict? && e.entity.tag == tag then [Scored(e.entity.text, e.entity.score)] else [])
  }

  function DictCount(es: seq<Entry>): nat
  {
    if es == [] then 0 else DictCount(es[..|es| - 1]) + (if es[|es| - 1].Dict? then 1 else 0)
  }

  function TotalMembers(g: seq<Group>): nat
  {
    if g == [] then 0 else |g[0].members| + TotalMembers(g[1..])
  }

  /** The grouping loop over the flattened prediction lists. */
  function GroupEntries(es: seq<Entry>): (r: seq<Group>)
    ensures Distinct(Tags(r))
    ensures forall l :: Members(r, l) == Project(es, l)
  {
    if es == [] then []
    else
      var g := GroupEntries(es[..|es| - 1]);
      var e := es[|es| - 1];
      if e.Dict? then AddTo(g, e.entity.tag, Scored(e.entity.text, e.entity.score)) else g
  }

  /** `group_by_label(data)`. */
  function GroupByLabel(data: seq<seq<Entry>>): (r: seq<Group>)
    ensures Distinct(Tags(r))
    ensures forall l :: Members(r, l) == Project(Flatten(data), l)
  {
    GroupEntries(Flatten(data))
  }

  lemma {:induction false} AddToCount(g: seq<Group>, tag: string, x: Scored)
    ensures TotalMembers(AddTo(g, tag, x)) == TotalMembers(g) + 1
  {
    if g != [] && g[0].tag != tag {
      AddToCount(g[1..], tag, x);
      assert ([g[0]] + AddTo(g[1..], tag, x))[1..] == AddTo(g[1..], tag, x);
    } else if g != [] {
      assert (([g[0].(members := g[0].members + [x])] + g[1..])[1..]) == g[1..];
    }
  }

  /** Every dict entry lands in exactly one list: the lists hold as many
      pairs as there are dict entries. */
  lemma {:induction false} GroupByLabelCount(data: seq<seq<Entry>>)
    ensures TotalMembers(GroupByLabel(data)) == DictCount(Flatten(data))
  {
    GroupEntriesCount(Flatten(data));
  }

  lemma {:induction false} GroupEntriesCount(es: seq<Entry>)
    ensures TotalMembers(GroupEntries(es)) == DictCount(es)
  {
    if es != [] {
      GroupEntriesCount(es[..|es| - 1]);
      var e := es[|es| - 1];
      if e.Dict? {
        AddToCount(GroupEntries(es[..|es| - 1]), e.entity.tag, Scored(e.entity.text, e.entity.score));
      }
    }
  }

  /** A label is a key of the grouping exactly when some dict entry carries it. */
  lemma {:induction false} GroupEntriesTags(es: seq<Entry>, l: string)
    ensures l in Tags(GroupEntries(es))
        <==> exists i :: 0 <= i < |es| && es[i].Dict? && es[i].entity.tag == l
  {
    if es != [] {
      var init := es[..|es| - 1];
      GroupEntriesTags(init, l);
      if exists i :: 0 <= i < |init| && init[i].Dict? && init[i].entity.tag == l {
        var i :| 0 <= i < |init| && init[i].Dict? && init[i].entity.tag == l;
        assert es[i] == init[i];
      }
      if exists i :: 0 <= i < |es| && es[i].Dict? && es[i].entity.tag == l {
        var i :| 0 <= i < |es| && es[i].Dict? && es[i].entity.tag == l;
        if i < |init| {
          assert init[i] == es[i];
        }
      }
    }
  }

  // ---------------------------------------------------------------------
  // flatten_texts

  /** `flatten_texts(d)`: every text, label by label, in list order. */
  function FlattenTexts(g: seq<Group>): (r: seq<string>)
    ensures |r| == TotalMembers(g)
  {
    if g == [] then [] else Texts(g[0].members) + FlattenTexts(g[1..])
  }

  lemma {:induction false} FlattenTextsAddTo(g: seq<Group>, tag: string, x: Scored)
    ensures multiset(FlattenTexts(AddTo(g, tag, x))) == multiset(FlattenTexts(g)) + multiset{x.text}
  {
    if g != [] {
      var a, b := Texts(g[0].members), FlattenTexts(g[1..]);
      assert FlattenTexts(g) == a + b;
      if g[0].tag == tag {
        assert FlattenTexts(AddTo(g, tag, x)) == a + [x.text] + b by {
          FlattenTextsAddHere(g, tag, x);
        }
        assert multiset(a + [x.text] + b) == multiset(a) + multiset{x.text} + multiset(b);
      } else {
        var rest := FlattenTexts(AddTo(g[1..], tag, x));
        assert multiset(rest) == multiset(b) + multiset{x.text} by {
          FlattenTextsAddTo(g[1..], tag, x);
        }
        assert FlattenTexts(AddTo(g, tag, x)) == a + rest by {
          FlattenTextsAddLater(g, tag, x);
        }
      }
    }
  }

  /** Adding to the first list puts the text right after that list's texts. */
  lemma FlattenTextsAddHere(g: seq<Group>, tag: string, x: Scored)
    requires g != [] && g[0].tag == tag
    ensures FlattenTexts(AddTo(g, tag, x)) == Texts(g[0].members) + [x.text] + FlattenTexts(g[1..])
  {
    var h := g[0].(members := g[0].members + [x]);
    assert AddTo(g, tag, x) == [h] + g[1..];
    FlattenTextsCons(h, g[1..]);
    assert Texts(h.members) == Texts(g[0].members) + [x.text];
  }

  /** Adding to a later list leaves the first list's texts in front. */
  lemma FlattenTextsAddLater(g: seq<Group>, tag: string, x: Scored)
    requires g != [] && g[0].tag != tag
    ensures FlattenTexts(AddTo(g, tag, x)) == Texts(g[0].members) + FlattenTexts(AddTo(g[1..], tag, x))
  {
    var rest := AddTo(g[1..], tag, x);
    assert AddTo(g, tag, x) == [g[0]] + rest;
    FlattenTextsCons(g[0], rest);
  }

  lemma FlattenTextsCons(h: Group, rest: seq<Group>)
    ensures FlattenTexts([h] + rest) == Texts(h.members) + FlattenTexts(rest)
  {
    assert ([h] + rest)[1..] == rest;
  }

  /** The texts of the dict entries of `es`, in order. */
  function DictTexts(es: seq<Entry>): seq<string>
  {
    if es == [] then []
    else DictTexts(es[..|es| - 1]) + (if es[|es| - 1].Dict? then [es[|es| - 1].entity.text] else [])
  }

  /** Grouping then flattening only reorders the texts of the dict entries. */
  lemma {:induction false} FlattenGroupedIsPermutation(es: seq<Entry>)
    ensures multiset(FlattenTexts(GroupEntries(es))) == multiset(DictTexts(es))
  {
    if es != [] {
      var init := es[..|es| - 1];
      FlattenGroupedIsPermutation(init);
      var e := es[|es| - 1];
      if e.Dict? {
        FlattenTextsAddTo(GroupEntries(init), e.entity.tag, Scored(e.entity.text, e.entity.score));
      }
    }
  }

  // ---------------------------------------------------------------------
  // merge_duplicate_texts / merge_similar_texts

  /** The stop list of the current pipeline. Two adjacent string literals
      without a comma between them make one entry, `"somebodytoday"`. */
  const StopWords: seq<string> :=
    ["he", "she", "i", "me", "her", "him", "they", "we", "us", "one", "you",
     "somebodytoday", "tonight", "this year", "last month", "last year",
     "yesterday", "tomorrow"]

  /** The stop list of the older pipeline; its `"I"` is upper case. */
  const LegacyStopWords: seq<string> :=
    ["he", "she", "I", "me", "her", "him", "they", "we", "us", "one"]

  /** Index of the first item with text `t`, or `|items|` if there is none. */
  function FirstPos(items: seq<Scored>, t: string): (p: nat)
    ensures p <= |items|
    ensures p < |items| ==> items[p].text == t
    ensures forall j :: 0 <= j < p ==> items[j].text != t
  {
    if items == [] then 0
    else if items[0].text == t then 0
    else 1 + FirstPos(items[1..], t)
  }

  /** Insert-or-maximise `x` into the insertion-ordered text → score map. */
  function Upsert(u: seq<Scored>, x: Scored): (r: seq<Scored>)
    requires Distinct(Texts(u))
    ensures Texts(r) == if x.text in Texts(u) then Texts(u) else Texts(u) + [x.text]
    ensures Distinct(Texts(r))
    ensures forall k :: 0 <= k < |u| ==>
              r[k] == (if u[k].text == x.text then u[k].(score := Max(u[k].score, x.score)) else u[k])
    ensures x.text !in Texts(u) ==> r[|u|] == x
  {
    var p := FirstPos(u, x.text);
    if p < |u| then
      var r := u[p := u[p].(score := Max(u[p].score, x.score))];
      DistinctAt(u, p);
      assert Texts(u)[p] == x.text;
      TextsUpdate(u, p, r[p]);
      r
    else
      TextsAbsent(u, x.text);
      TextsSnoc(u, x);
      u + [x]
  }

  /** In a list with distinct texts, the text at `p` occurs nowhere else. */
  lemma DistinctAt(u: seq<Scored>, p: nat)
    requires Distinct(Texts(u)) && p < |u|
    ensures forall k :: 0 <= k < |u| && k != p ==> Texts(u)[k] != Texts(u)[p]
  {
  }

  /** Replacing a pair by one with the same text keeps the texts. */
  lemma TextsUpdate(u: seq<Scored>, p: nat, y: Scored)
    requires p < |u| && y.text == u[p].text
    ensures Texts(u[p := y]) == Texts(u)
  {
  }

  lemma TextsSnoc(u: seq<Scored>, x: Scored)
    ensures Texts(u + [x]) == Texts(u) + [x.text]
  {
  }

  /** A text that no pair carries is not among the texts. */
  lemma TextsAbsent(u: seq<Scored>, t: string)
    requires forall j :: 0 <= j < |u| ==> u[j].text != t
    ensures t !in Texts(u)
  {
  }

  /** The de-duplication loop of one label's list: a text → score dictionary
      filled in list order, stop words skipped. */
  function Dedupe(items: seq<Scored>, stop: seq<string>): (r: seq<Scored>)
    ensures Distinct(Texts(r))
  {
    if items == [] then []
    else
      var u := Dedupe(items[..|items| - 1], stop);
      var x := items[|items| - 1];
      if Lower(x.text) in stop then u else Upsert(u, x)
  }

  /** Text `t` occurs in `items` and is not a stop word. */
  ghost predicate Survives(items: seq<Scored>, stop: seq<string>, t: string)
  {
    Lower(t) !in stop && exists i :: 0 <= i < |items| && items[i].text == t
  }

  /** `s` is an item of `items` with the largest score among those with its text. */
  ghost predicate Best(items: seq<Scored>, s: Scored)
  {
    && (exists i :: 0 <= i < |items| && items[i] == s)
    && (forall i :: 0 <= i < |items| && items[i].text == s.text ==> items[i].score <= s.score)
  }

  /** The de-duplicated list holds each surviving text exactly once. */
  lemma {:induction false} DedupeTexts(items: seq<Scored>, stop: seq<string>)
    ensures forall t :: t in Texts(Dedupe(items, stop)) <==> Survives(items, stop, t)
  {
    if items != [] {
      var init := items[..|items| - 1];
      var x := items[|items| - 1];
      DedupeTexts(init, stop);
      forall t | Survives(init, stop, t) ensures Survives(items, stop, t) {
        var i :| 0 <= i < |init| && init[i].text == t;
        assert items[i] == init[i];
      }
      forall t | Survives(items, stop, t) && t != x.text ensures Survives(init, stop, t) {
        var i :| 0 <= i < |items| && items[i].text == t;
        assert init[i] == items[i];
      }
    }
  }

  /** A text that is not a stop word and was not kept does not occur. */
  lemma NotKeptAbsent(items: seq<Scored>, stop: seq<string>, t: string)
    requires Lower(t) !in stop && t !in Texts(Dedupe(items, stop))
    ensures forall j :: 0 <= j < |items| ==> items[j].text != t
  {
    DedupeTexts(items, stop);
  }

  lemma BestSnoc(items: seq<Scored>, s: Scored)
    requires items != []
    requires Best(items[..|items| - 1], s)
    requires items[|items| - 1].text != s.text || items[|items| - 1].score <= s.score
    ensures Best(items, s)
  {
    var init := items[..|items| - 1];
    var i :| 0 <= i < |init| && init[i] == s;
    assert items[i] == s;
    forall j | 0 <= j < |items| && items[j].text == s.text ensures items[j].score <= s.score {
      if j < |init| {
        assert init[j] == items[j];
      }
    }
  }

  lemma BestLast(items: seq<Scored>)
    requires items != []
    requires forall j :: 0 <= j < |items| - 1 && items[j].text == items[|items| - 1].text ==>
               items[j].score <= items[|items| - 1].score
    ensures Best(items, items[|items| - 1])
  {
  }

  /** A text already kept before the last item keeps a best entry. */
  lemma ScoreKept(items: seq<Scored>, stop: seq<string>, k: nat)
    requires items != []
    requires k < |Dedupe(items[..|items| - 1], stop)|
    requires Best(items[..|items| - 1], Dedupe(items[..|items| - 1], stop)[k])
    ensures k < |Dedupe(items, stop)| && Best(items, Dedupe(items, stop)[k])
  {
    var n := |items| - 1;
    var init := items[..n];
    var x := items[n];
    var u := Dedupe(init, stop);
    var r := Dedupe(items, stop);
    assert Survives(init, stop, u[k].text) by {
      DedupeTexts(init, stop);
      assert Texts(u)[k] == u[k].text;
    }
    if Lower(x.text) in stop {
      assert r == u;
      BestSnoc(items, u[k]);
    } else if u[k].text != x.text || u[k].score >= x.score {
      assert r[k] == u[k];
      BestSnoc(items, u[k]);
    } else {
      assert r[k] == x;
      forall j | 0 <= j < n && items[j].text == x.text ensures items[j].score <= x.score {
        assert init[j] == items[j];
      }
      BestLast(items);
    }
  }

  /** A text first kept at the last item is kept with that item. */
  lemma ScoreAdded(items: seq<Scored>, stop: seq<string>)
    requires items != []
    requires |Dedupe(items, stop)| > |Dedupe(items[..|items| - 1], stop)|
    ensures Best(items, Dedupe(items, stop)[|Dedupe(items[..|items| - 1], stop)|])
  {
    var n := |items| - 1;
    var init := items[..n];
    var x := items[n];
    var u := Dedupe(init, stop);
    DedupeTexts(init, stop);
    assert Dedupe(items, stop)[|u|] == x && x.text !in Texts(u);
    assert Lower(x.text) !in stop;
    NotKeptAbsent(init, stop, x.text);
    forall j | 0 <= j < n ensures items[j].text != x.text {
      assert init[j] == items[j];
    }
    BestLast(items);
  }

  /** Each kept entry is an input entry with the largest score among the
      entries with its text. */
  lemma {:induction false} DedupeScores(items: seq<Scored>, stop: seq<string>)
    ensures forall k :: 0 <= k < |Dedupe(items, stop)| ==> Best(items, Dedupe(items, stop)[k])
  {
    if items != [] {
      var u := Dedupe(items[..|items| - 1], stop);
      var r := Dedupe(items, stop);
      DedupeScores(items[..|items| - 1], stop);
      assert |r| <= |u| + 1;
      forall k | 0 <= k < |r| ensures Best(items, r[k]) {
        if k < |u| {
          ScoreKept(items, stop, k);
        } else {
          ScoreAdded(items, stop);
        }
      }
    }
  }

  lemma FirstPosPrefix(items: seq<Scored>, n: nat, t: string)
    requires n <= |items|
    requires FirstPos(items[..n], t) < n
    ensures FirstPos(items, t) == FirstPos(items[..n], t)
  {
    var p := FirstPos(items[..n], t);
    assert items[p] == items[..n][p];
    forall j | 0 <= j < p ensures items[j].text != t {
      assert items[j] == items[..n][j];
    }
  }

  /** One step of the loop keeps the texts already present, with their first
      positions, and may append the new text, whose first position is the
      step's index. */
  lemma DedupeStep(items: seq<Scored>, stop: seq<string>)
    requires items != []
    ensures var n := |items| - 1;
            var u := Dedupe(items[..n], stop);
            var r := Dedupe(items, stop);
            && |u| <= |r| <= |u| + 1
            && (forall k :: 0 <= k < |u| ==>
                  r[k].text == u[k].text && FirstPos(items, u[k].text) == FirstPos(items[..n], u[k].text) < n)
            && (|r| == |u| + 1 ==> FirstPos(items, r[|u|].text) == n)
  {
    var n := |items| - 1;
    var init := items[..n];
    var x := items[n];
    var u := Dedupe(init, stop);
    var r := Dedupe(items, stop);
    forall k | 0 <= k < |u|
      ensures r[k].text == u[k].text
      ensures FirstPos(items, u[k].text) == FirstPos(init, u[k].text) < n
    {
      assert Survives(init, stop, u[k].text) by {
        DedupeTexts(init, stop);
        assert Texts(u)[k] == u[k].text;
      }
      var i :| 0 <= i < |init| && init[i].text == u[k].text;
      FirstPosPrefix(items, n, u[k].text);
    }
    if |r| == |u| + 1 {
      assert r[|u|] == x && x.text !in Texts(u);
      assert Lower(x.text) !in stop;
      NotKeptAbsent(init, stop, x.text);
      forall j | 0 <= j < n ensures items[j].text != x.text {
        assert init[j] == items[j];
      }
    }
  }

  /** Kept texts are in the order of their first appearance. */
  lemma {:induction false} DedupeOrder(items: seq<Scored>, stop: seq<string>)
    ensures var r := Dedupe(items, stop);
            forall k, l :: 0 <= k < l < |r| ==>
              FirstPos(items, r[k].text) < FirstPos(items, r[l].text) < |items|
  {
    if items != [] {
      var n := |items| - 1;
      var u := Dedupe(items[..n], stop);
      var r := Dedupe(items, stop);
      DedupeOrder(items[..n], stop);
      DedupeStep(items, stop);
      forall k, l | 0 <= k < l < |r|
        ensures FirstPos(items, r[k].text) < FirstPos(items, r[l].text) < |items|
      {
        assert r[k].text == u[k].text;
        if l < |u| {
          assert r[l].text == u[l].text;
          assert FirstPos(items[..n], u[k].text) < FirstPos(items[..n], u[l].text);
        } else {
          assert FirstPos(items, r[l].text) == n;
        }
      }
    }
  }

  /** `merge_duplicate_texts`: every label kept, in order, each list
      de-duplicated against `stop`. */
  function MergeDuplicateTexts(g: seq<Group>, stop: seq<string>): (r: seq<Group>)
    ensures Tags(r) == Tags(g)
    ensures forall k :: 0 <= k < |r| ==> r[k].members == Dedupe(g[k].members, stop)
  {
    if g == [] then []
    else
      var rest := MergeDuplicateTexts(g[1..], stop);
      assert ([Group(g[0].tag, Dedupe(g[0].members, stop))] + rest)[1..] == rest;
      [Group(g[0].tag, Dedupe(g[0].members, stop))] + rest
  }

  /** The older `merge_similar_texts`: the same de-duplication with the older
      stop list, then every surviving text, label by label, joined by commas. */
  function MergeSimilarTexts(g: seq<Group>): (r: string)
  {
    Join(FlattenTexts(MergeDuplicateTexts(g, LegacyStopWords)), ",")
  }

  /** The older `merge_similar_texts` keeps "I" (its stop list cannot match
      it), drops "he", keeps one "Ann" for both mentions, and joins the
      survivors of all labels, label by label, with commas. */
  lemma MergeSimilarTextsExample()
    ensures MergeSimilarTexts(ExampleGroups()) == "I,Ann,Rome"
  {
    ExampleMerged();
    ExampleFlattened();
    ExampleJoined();
  }

  /** Two labels: four person mentions, one of them a stop word and two
      of them the same name, and one location. */
  function ExampleGroups(): seq<Group>
  {
    [Group("Person", [Scored("I", 0.9), Scored("he", 0.8), Scored("Ann", 0.5), Scored("Ann", 0.7)]),
     Group("Locations", [Scored("Rome", 0.6)])]
  }

  lemma ExampleMerged()
    ensures MergeDuplicateTexts(ExampleGroups(), LegacyStopWords)
         == [Group("Person", [Scored("I", 0.9), Scored("Ann", 0.7)]),
             Group("Locations", [Scored("Rome", 0.6)])]
  {
    ExamplePersonDeduped();
    ExamplePlaceDeduped();
  }

  lemma ExampleFlattened()
    ensures FlattenTexts([Group("Person", [Scored("I", 0.9), Scored("Ann", 0.7)]),
                          Group("Locations", [Scored("Rome", 0.6)])])
         == ["I", "Ann", "Rome"]
  {
    var g := [Group("Person", [Scored("I", 0.9), Scored("Ann", 0.7)]),
              Group("Locations", [Scored("Rome", 0.6)])];
    FlattenTextsCons(g[0], g[1..]);
    FlattenTextsCons(g[1], []);
    assert g[1..] == [g[1]] + [];
  }

  lemma ExampleJoined()
    ensures Join(["I", "Ann", "Rome"], ",") == "I,Ann,Rome"
  {
    assert ["I", "Ann", "Rome"][1..] == ["Ann", "Rome"];
    assert ["Ann", "Rome"][1..] == ["Rome"];
  }

  lemma ExamplePersonDeduped()
    ensures Dedupe([Scored("I", 0.9), Scored("he", 0.8), Scored("Ann", 0.5), Scored("Ann", 0.7)],
                   LegacyStopWords)
         == [Scored("I", 0.9), Scored("Ann", 0.7)]
  {
    var person := [Scored("I", 0.9), Scored("he", 0.8), Scored("Ann", 0.5), Scored("Ann", 0.7)];
    var u3 := [Scored("I", 0.9), Scored("Ann", 0.5)];
    assert Dedupe(person[..3], LegacyStopWords) == u3 by {
      ExamplePersonPrefix();
      assert person[..3] == [Scored("I", 0.9), Scored("he", 0.8), Scored("Ann", 0.5)];
    }
    StopAnn();
    DedupeAdd(person, LegacyStopWords);
    assert person[..3] == person[..|person| - 1];
    assert FirstPos(u3, "Ann") == 1;
  }

  /** The first three mentions: "I" kept, "he" skipped, "Ann" added. */
  lemma ExamplePersonPrefix()
    ensures Dedupe([Scored("I", 0.9), Scored("he", 0.8), Scored("Ann", 0.5)], LegacyStopWords)
         == [Scored("I", 0.9), Scored("Ann", 0.5)]
  {
    var p := [Scored("I", 0.9), Scored("he", 0.8), Scored("Ann", 0.5)];
    var u1 := [Scored("I", 0.9)];
    assert Dedupe(p[..2], LegacyStopWords) == u1 by {
      ExampleFirstTwo();
      assert p[..2] == [Scored("I", 0.9), Scored("he", 0.8)];
    }
    StopAnn();
    DedupeAdd(p, LegacyStopWords);
    assert p[..2] == p[..|p| - 1];
    assert FirstPos(u1, "Ann") == 1;
  }

  /** "I" is kept and "he" skipped. */
  lemma ExampleFirstTwo()
    ensures Dedupe([Scored("I", 0.9), Scored("he", 0.8)], LegacyStopWords) == [Scored("I", 0.9)]
  {
    var p := [Scored("I", 0.9), Scored("he", 0.8)];
    assert Dedupe(p[..1], LegacyStopWords) == [Scored("I", 0.9)] by {
      StopI();
      DedupeAdd(p[..1], LegacyStopWords);
      assert p[..1][..0] == [];
    }
    StopHe();
    DedupeSkip(p, LegacyStopWords);
    assert p[..1] == p[..|p| - 1];
  }

  lemma ExamplePlaceDeduped()
    ensures Dedupe([Scored("Rome", 0.6)], LegacyStopWords) == [Scored("Rome", 0.6)]
  {
    StopRome();
    DedupeAdd([Scored("Rome", 0.6)], LegacyStopWords);
    assert [Scored("Rome", 0.6)][..0] == [];
  }

  /** One step of the loop on a stop word: nothing changes. */
  lemma DedupeSkip(items: seq<Scored>, stop: seq<string>)
    requires items != [] && Lower(items[|items| - 1].text) in stop
    ensures Dedupe(items, stop) == Dedupe(items[..|items| - 1], stop)
  {
  }

  /** One step of the loop on any other text: insert or maximise. */
  lemma DedupeAdd(items: seq<Scored>, stop: seq<string>)
    requires items != [] && Lower(items[|items| - 1].text) !in stop
    ensures Dedupe(items, stop) == Upsert(Dedupe(items[..|items| - 1], stop), items[|items| - 1])
  {
  }

  lemma StopI()
    ensures Lower("I") !in LegacyStopWords
  {
    assert Lower("I")[0] == 'i';
  }

  lemma StopHe()
    ensures Lower("he") in LegacyStopWords
  {
    LowerOfLowercase("he");
  }

  lemma StopAnn()
    ensures Lower("Ann") !in LegacyStopWords
  {
    assert Lower("Ann")[0] == 'a';
  }

  lemma StopRome()
    ensures Lower("Rome") !in LegacyStopWords
  {
    assert Lower("Rome")[0] == 'r';
  }

  /** Lower-casing leaves lower-case ASCII text and spaces unchanged. */
  lemma {:induction false} LowerOfLowercase(s: string)
    requires forall k :: 0 <= k < |s| ==> 'a' <= s[k] <= 'z' || s[k] == ' '
    ensures Lower(s) == s
  {
    if s != [] {
      LowerOfLowercase(s[1..]);
    }
  }

  lemma StopWordsFacts()
    ensures "somebody" !in StopWords
    ensures "today" !in StopWords
    ensures "somebodytoday" in StopWords
  {
  }

  lemma LowerSomebody()
    ensures Lower("somebody") == "somebody"
  {
    LowerOfLowercase("somebody");
  }

  lemma LowerToday()
    ensures Lower("today") == "today"
  {
    LowerOfLowercase("today");
  }

  lemma LowerSomebodyToday()
    ensures Lower("somebodytoday") == "somebodytoday"
  {
    LowerOfLowercase("somebodytoday");
  }

  /** The missing comma: neither "somebody" nor "today" is ever filtered,
      while the glued word always is. */
  lemma SomebodyTodayKept(items: seq<Scored>)
    ensures (exists i :: 0 <= i < |items| && items[i].text == "somebody")
              ==> "somebody" in Texts(Dedupe(items, StopWords))
    ensures (exists i :: 0 <= i < |items| && items[i].text == "today")
              ==> "today" in Texts(Dedupe(items, StopWords))
    ensures "somebodytoday" !in Texts(Dedupe(items, StopWords))
  {
    if exists i :: 0 <= i < |items| && items[i].text == "somebody" {
      SomebodyKept(items);
    }
    if exists i :: 0 <= i < |items| && items[i].text == "today" {
      TodayKept(items);
    }
    GluedDropped(items);
  }

  lemma SomebodyKept(items: seq<Scored>)
    requires exists i :: 0 <= i < |items| && items[i].text == "somebody"
    ensures "somebody" in Texts(Dedupe(items, StopWords))
  {
    StopWordsFacts();
    LowerSomebody();
    KeptWhenNotStop(items, StopWords, "somebody");
  }

  lemma TodayKept(items: seq<Scored>)
    requires exists i :: 0 <= i < |items| && items[i].text == "today"
    ensures "today" in Texts(Dedupe(items, StopWords))
  {
    StopWordsFacts();
    LowerToday();
    KeptWhenNotStop(items, StopWords, "today");
  }

  lemma GluedDropped(items: seq<Scored>)
    ensures "somebodytoday" !in Texts(Dedupe(items, StopWords))
  {
    StopWordsFacts();
    LowerSomebodyToday();
    DroppedWhenStop(items, StopWords, "somebodytoday");
  }

  /** A text whose lower case is no stop word survives when some item
      carries it. */
  lemma KeptWhenNotStop(items: seq<Scored>, stop: seq<string>, t: string)
    requires Lower(t) !in stop
    requires exists i :: 0 <= i < |items| && items[i].text == t
    ensures t in Texts(Dedupe(items, stop))
  {
    DedupeTexts(items, stop);
    assert Survives(items, stop, t);
  }

  /** A text whose lower case is a stop word never survives. */
  lemma DroppedWhenStop(items: seq<Scored>, stop: seq<string>, t: string)
    requires Lower(t) in stop
    ensures t !in Texts(Dedupe(items, stop))
  {
    DedupeTexts(items, stop);
    assert !Survives(items, stop, t);
  }

  /** A lower-cased text never contains `'I'`, so the older stop list never
      removes "I" (nor "i"). */
  lemma {:induction false} LegacyNeverDropsI(items: seq<Scored>, t: string)
    requires t == "I" || t == "i"
    requires exists i :: 0 <= i < |items| && items[i].text == t
    ensures t in Texts(Dedupe(items, LegacyStopWords))
  {
    assert Lower(t)[0] == 'i';
    assert Lower(t) !in LegacyStopWords;
    DedupeTexts(items, LegacyStopWords);
    assert Survives(items, LegacyStopWords, t);
  }

  // ---------------------------------------------------------------------
  // extract_entities: the batching loop

  /** What one call of the entity model on a batch does: raises, returns
      `None`, or returns one prediction list per sentence. */
  datatype BatchOutcome = Failed | ReturnedNone | Returned(lists: seq<seq<Entry>>)

  /** What a batch adds to the result: a raising batch is logged and
      skipped, `None` and `[]` add nothing. */
  function Contribution(o: BatchOutcome): (r: seq<seq<Entry>>)
    ensures o.Returned? ==> r == o.lists
    ensures !o.Returned? ==> r == []
  {
    if o.Returned? then o.lists else []
  }

  /** A transcript item's `transcript` field, `None` when missing. */
  datatype Item = Item(transcript: Option<string>)

  /** The items whose `transcript` is present and non-empty, in order. */
  function Sentences(transcript: seq<Item>): (r: seq<string>)
    ensures |r| <= |transcript|
    ensures forall k :: 0 <= k < |r| ==> r[k] != []
  {
    if transcript == [] then []
    else
      var t := transcript[0].transcript;
      (if t.Some? && t.value != [] then [t.value] else []) + Sentences(transcript[1..])
  }

  /** `range(i, n, bs)` with window `[i, min(i + bs, n))`. */
  function BatchLoop(sentences: seq<string>, i: nat, batchSize: nat, predict: seq<string> -> BatchOutcome)
    : seq<seq<Entry>>
    requires batchSize > 0
    decreases |sentences| - i
  {
    if i >= |sentences| then []
    else
      var hi := if i + batchSize < |sentences| then i + batchSize else |sentences|;
      Contribution(predict(sentences[i..hi])) + BatchLoop(sentences, i + batchSize, batchSize, predict)
  }

  /** The consecutive batches of at most `batchSize` sentences. */
  function Batches(s: seq<string>, batchSize: nat): (r: seq<seq<string>>)
    requires batchSize > 0
    decreases |s|
  {
    if s == [] then []
    else if |s| <= batchSize then [s]
    else [s[..batchSize]] + Batches(s[batchSize..], batchSize)
  }

  /** The batches are non-empty, hold at most `batchSize` sentences, all but
      the last exactly `batchSize`, and concatenate back to the sentences. */
  lemma {:induction false} BatchesPartition(s: seq<string>, batchSize: nat)
    requires batchSize > 0
    ensures Flatten(Batches(s, batchSize)) == s
    ensures forall k :: 0 <= k < |Batches(s, batchSize)| ==> 0 < |Batches(s, batchSize)[k]| <= batchSize
    ensures forall k :: 0 <= k < |Batches(s, batchSize)| - 1 ==> |Batches(s, batchSize)[k]| == batchSize
    decreases |s|
  {
    if |s| > batchSize {
      var rest := Batches(s[batchSize..], batchSize);
      BatchesPartition(s[batchSize..], batchSize);
      assert Batches(s, batchSize) == [s[..batchSize]] + rest;
      assert Batches(s, batchSize)[1..] == rest;
      FlattenCons(s[..batchSize], rest);
      assert s[..batchSize] + s[batchSize..] == s;
    } else if s != [] {
      FlattenCons(s, []);
      assert [s] + [] == [s];
    }
  }

  /** Concatenation of the contributions of a list of batches. */
  function Collect(batches: seq<seq<string>>, predict: seq<string> -> BatchOutcome): seq<seq<Entry>>
  {
    if batches == [] then [] else Contribution(predict(batches[0])) + Collect(batches[1..], predict)
  }

  /** The index loop calls the model on exactly the consecutive batches and
      concatenates their contributions in batch order. */
  lemma {:induction false} BatchLoopIsBatches(sentences: seq<string>, i: nat, batchSize: nat,
                                              predict: seq<string> -> BatchOutcome)
    requires batchSize > 0 && i <= |sentences|
    ensures BatchLoop(sentences, i, batchSize, predict)
         == Collect(Batches(sentences[i..], batchSize), predict)
    decreases |sentences| - i
  {
    var s := sentences[i..];
    if s != [] {
      if |s| <= batchSize {
        assert BatchLoop(sentences, i, batchSize, predict) == Contribution(predict(s)) by {
          BatchLoopLast(sentences, i, batchSize, predict);
        }
        assert Collect([s], predict) == Contribution(predict(s)) by {
          CollectCons(s, [], predict);
        }
      } else {
        var head, tail := s[..batchSize], Batches(s[batchSize..], batchSize);
        assert sentences[i + batchSize..] == s[batchSize..];
        assert BatchLoop(sentences, i + batchSize, batchSize, predict) == Collect(tail, predict) by {
          BatchLoopIsBatches(sentences, i + batchSize, batchSize, predict);
        }
        assert BatchLoop(sentences, i, batchSize, predict)
            == Contribution(predict(head)) + BatchLoop(sentences, i + batchSize, batchSize, predict) by {
          BatchLoopStep(sentences, i, batchSize, predict);
        }
        assert Batches(s, batchSize) == [head] + tail by {
          BatchesStep(s, batchSize);
        }
        assert Collect([head] + tail, predict) == Contribution(predict(head)) + Collect(tail, predict) by {
          CollectCons(head, tail, predict);
        }
      }
    }
  }

  /** The last window of the index loop is the rest of the sentences. */
  lemma BatchLoopLast(sentences: seq<string>, i: nat, batchSize: nat, predict: seq<string> -> BatchOutcome)
    requires batchSize > 0 && 0 < |sentences| - i <= batchSize
    ensures BatchLoop(sentences, i, batchSize, predict) == Contribution(predict(sentences[i..]))
  {
    assert sentences[i..|sentences|] == sentences[i..];
    assert BatchLoop(sentences, i + batchSize, batchSize, predict) == [];
  }

  /** A full window of the index loop is followed by the loop from the next
      window. */
  lemma BatchLoopStep(sentences: seq<string>, i: nat, batchSize: nat, predict: seq<string> -> BatchOutcome)
    requires batchSize > 0 && |sentences| - i > batchSize
    ensures BatchLoop(sentences, i, batchSize, predict)
         == Contribution(predict(sentences[i..][..batchSize])) + BatchLoop(sentences, i + batchSize, batchSize, predict)
  {
    assert sentences[i..i + batchSize] == sentences[i..][..batchSize];
  }

  lemma BatchesStep(s: seq<string>, batchSize: nat)
    requires batchSize > 0 && |s| > batchSize
    ensures Batches(s, batchSize) == [s[..batchSize]] + Batches(s[batchSize..], batchSize)
  {
  }

  lemma CollectCons(b: seq<string>, rest: seq<seq<string>>, predict: seq<string> -> BatchOutcome)
    ensures Collect([b] + rest, predict) == Contribution(predict(b)) + Collect(rest, predict)
  {
    assert ([b] + rest)[1..] == rest;
  }

  /** `extract_entities(labels, transcript, batch_size)`. `modelReady` is
      whether loading the entity model succeeds; `predict` is the model
      applied to one batch. `None` is the critical-failure result. */
  function ExtractEntities(transcript: seq<Item>, modelReady: bool, batchSize: int,
                           predict: seq<string> -> BatchOutcome): (r: Option<seq<seq<Entry>>>)
    ensures transcript == [] ==> r == Some([])
    ensures transcript != [] && !modelReady ==> r == None
    ensures modelReady && Sentences(transcript) == [] ==> r == Some([])
    ensures Sentences(transcript) != [] && batchSize == 0 ==> r == None
    ensures modelReady && batchSize < 0 ==> r == Some([])
  {
    if transcript == [] then Some([])
    else if !modelReady then None
    else
      var sentences := Sentences(transcript);
      if sentences == [] then Some([])
      // the batch count divides by the batch size before the loop starts
      else if batchSize == 0 then None
      // a negative step makes the range empty
      else if batchSize < 0 then Some([])
      else Some(BatchLoop(sentences, 0, batchSize, predict))
  }

  /** With a positive batch size, the result is the batches' contributions
      in order; a model that never fails returns one list per sentence. */
  lemma ExtractEntitiesBatches(transcript: seq<Item>, batchSize: nat,
                               predict: seq<string> -> BatchOutcome)
    requires transcript != [] && batchSize > 0
    ensures ExtractEntities(transcript, true, batchSize, predict)
         == Some(Collect(Batches(Sentences(transcript), batchSize), predict))
  {
    var s := Sentences(transcript);
    if s != [] {
      BatchLoopIsBatches(s, 0, batchSize, predict);
      assert s[0..] == s;
    }
  }

  /** When every batch returns one list per sentence, the concatenation has
      one list per sentence. */
  lemma {:induction false} CollectLength(batches: seq<seq<string>>, predict: seq<string> -> BatchOutcome)
    requires forall k :: 0 <= k < |batches| ==>
               predict(batches[k]).Returned? && |predict(batches[k]).lists| == |batches[k]|
    ensures |Collect(batches, predict)| == |Flatten(batches)|
  {
    if batches != [] {
      CollectLength(batches[1..], predict);
      FlattenAppend([batches[0]], batches[1..]);
      FlattenAppend([batches[0]], []);
      assert [batches[0]] + batches[1..] == batches;
    }
  }

  // ---------------------------------------------------------------------
  // extract_persons

  /** An introduction transcript entry extended with `speaker_name`. */
  datatype Introduction = Introduction(start: real, end: real, text: string, speakerName: string)

  /** An introduction segment as found by the introduction classifier. */
  datatype IntroSegment = IntroSegment(start: real, end: real, text: string)

  predicate AllDicts(l: seq<Entry>)
  {
    forall j :: 0 <= j < |l| ==> l[j].Dict?
  }

  /** The first text of every non-empty prediction list; a non-dict element
      anywhere in a list makes `item['text']` raise. */
  function FirstNames(lists: seq<seq<Entry>>): (r: Result<seq<string>>)
    ensures r.Ok? ==> |r.value| <= |lists|
    ensures r.Ok? <==> forall k, j :: 0 <= k < |lists| && 0 <= j < |lists[k]| ==> lists[k][j].Dict?
  {
    if lists == [] then Ok([])
    else
      var first := lists[0];
      if !AllDicts(first) then Raises("TypeError")
      else
        var rest := FirstNames(lists[1..]);
        if rest.Raises? then
          assert exists k, j :: 0 <= k < |lists[1..]| && 0 <= j < |lists[1..][k]| && !lists[1..][k][j].Dict?;
          rest
        else
          assert forall k, j :: 0 <= k < |lists| && 0 <= j < |lists[k]| ==> lists[k][j].Dict? by {
            forall k, j | 0 <= k < |lists| && 0 <= j < |lists[k]| ensures lists[k][j].Dict? {
              if k > 0 {
                assert lists[k] == lists[1..][k - 1];
              }
            }
          }
          Ok((if first != [] then [first[0].entity.text] else []) + rest.value)
  }

  /** `zip(introductions, names)` with `speaker_name` added. */
  function Pair(intros: seq<IntroSegment>, names: seq<string>): (r: seq<Introduction>)
    ensures |r| == if |intros| < |names| then |intros| else |names|
    ensures forall k :: 0 <= k < |r| ==>
              r[k] == Introduction(intros[k].start, intros[k].end, intros[k].text, names[k])
  {
    if intros == [] || names == [] then []
    else [Introduction(intros[0].start, intros[0].end, intros[0].text, names[0])]
         + Pair(intros[1..], names[1..])
  }

  /** `extract_persons(introductions)`, given what `extract_entities`
      returns for them. Iterating a `None` result raises. */
  function ExtractPersons(intros: seq<IntroSegment>, extracted: Option<seq<seq<Entry>>>)
    : (r: Result<seq<Introduction>>)
    ensures intros == [] ==> r == Ok([])
    ensures intros != [] && extracted.None? ==> r.Raises?
  {
    if intros == [] then Ok([])
    else if extracted.None? then Raises("TypeError")
    else
      var names := FirstNames(extracted.value);
      if names.Raises? then Raises(names.error) else Ok(Pair(intros, names.value))
  }

  /** The pairing: as many persons as the shorter of introductions and
      names; person k is introduction k with the k-th name found. */
  lemma ExtractPersonsPairs(intros: seq<IntroSegment>, lists: seq<seq<Entry>>)
    requires intros != []
    requires forall k, j :: 0 <= k < |lists| && 0 <= j < |lists[k]| ==> lists[k][j].Dict?
    ensures var names := FirstNames(lists).value;
            var r := ExtractPersons(intros, Some(lists));
            && r.Ok?
            && |r.value| == (if |intros| < |names| then |intros| else |names|)
            && (forall k :: 0 <= k < |r.value| ==>
                  r.value[k].speakerName == names[k] && r.value[k].start == intros[k].start)
  {
  }

  /** A name missing from the first introduction shifts the second
      introduction's name onto the first, and the second gets none. */
  lemma ExtractPersonsShift(a: IntroSegment, b: IntroSegment, n: string, score: real)
    ensures ExtractPersons([a, b], Some([[], [Dict(Entity(n, "Person", score))]]))
         == Ok([Introduction(a.start, a.end, a.text, n)])
  {
    var one: seq<Entry> := [Dict(Entity(n, "Person", score))];
    var lists: seq<seq<Entry>> := [[], one];
    assert lists[1..] == [one] && [one][1..] == [];
    assert AllDicts(one) && AllDicts([]);
    assert [one][1..] == [];
    assert FirstNames([one]).Ok? && FirstNames([one]).value == [n];
    assert FirstNames(lists).Ok? && FirstNames(lists).value == [n];
    var r := ExtractPersons([a, b], Some(lists));
    assert r.Ok? && r.value == [Introduction(a.start, a.end, a.text, n)];
  }
}
