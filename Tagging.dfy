/**
  The tag index ($_tagged): each cache id mapped to its list of tags, the
  merge save() performs on it, and the selections clean() makes from it.
 */
module Tagging {

  type Tags = seq<string>

  /** $_tagged once hydrated: cache id to tag list. */
  type Index = map<string, Tags>

  predicate NoDuplicates(s: Tags)
  {
    forall i, j :: 0 <= i < j < |s| ==> s[i] != s[j]
  }

  /** PHP array_unique on a list: the first occurrence of each tag, in order. */
  function Unique(s: Tags): (r: Tags)
    ensures NoDuplicates(r)
    ensures forall x :: x in r <==> x in s
  {
    if s == [] then []
    else
      var init, last := s[..|s| - 1], s[|s| - 1];
      if last in init then Unique(init) else Unique(init) + [last]
  }

  /** PHP array_diff($a, $b) on lists: the entries of a not in b, duplicates and order kept. */
  function Diff(a: Tags, b: Tags): (r: Tags)
    ensures |r| <= |a|
    ensures forall x :: x in r <==> x in a && x !in b
  {
    if a == [] then []
    else
      var init, last := a[..|a| - 1], a[|a| - 1];
      Diff(init, b) + (if last in b then [] else [last])
  }

  /** The tag list save() stores: array_unique(array_merge($current, $added)). */
  function MergeTags(current: Tags, added: Tags): Tags
  {
    Unique(current + added)
  }

  /** $this->_tagged[$id] = array_unique(array_merge(isset ? $this->_tagged[$id] : array(), $tags)). */
  function AddTags(index: Index, id: string, tags: Tags): (r: Index)
    ensures r.Keys == index.Keys + {id}
    ensures forall other :: other in index && other != id ==> r[other] == index[other]
    ensures NoDuplicates(r[id])
    ensures forall t :: t in r[id] <==> t in tags || (id in index && t in index[id])
  {
    var before := if id in index then index[id] else [];
    MergeProperties(before, tags);
    index[id := MergeTags(before, tags)]
  }

  /** The merged list holds no duplicates and exactly the tags of both lists. */
  lemma MergeProperties(current: Tags, added: Tags)
    ensures NoDuplicates(MergeTags(current, added))
    ensures forall t :: t in MergeTags(current, added) <==> t in current || t in added
  {
  }

  /** array_unique leaves a list without duplicates as it is. */
  lemma {:induction false} UniqueOfDistinct(s: Tags)
    requires NoDuplicates(s)
    ensures Unique(s) == s
  {
    if s != [] {
      var init := s[..|s| - 1];
      assert NoDuplicates(init);
      UniqueOfDistinct(init);
      assert s[|s| - 1] !in init;
      assert s == init + [s[|s| - 1]];
    }
  }

  /**
    save() keeps the current tag list in place and appends, in order and once
    each, the added tags that were not already present.
   */
  lemma {:induction false} MergeAppendsNewTags(current: Tags, added: Tags)
    requires NoDuplicates(current)
    ensures MergeTags(current, added) == current + Unique(Diff(added, current))
  {
    if added == [] {
      assert current + added == current;
      UniqueOfDistinct(current);
    } else {
      var init, last := added[..|added| - 1], added[|added| - 1];
      MergeAppendsNewTags(current, init);
      assert added == init + [last];
      assert current + added == (current + init) + [last];
      if last in current {
        MergeStepKnownTag(current, init, last);
      } else {
        MergeStepNewTag(current, init, last);
      }
    }
  }

  lemma UniqueSnoc(s: Tags, x: string)
    ensures Unique(s + [x]) == if x in s then Unique(s) else Unique(s) + [x]
  {
    assert (s + [x])[..|s|] == s;
  }

  lemma DiffSnoc(a: Tags, b: Tags, x: string)
    ensures x in b ==> Diff(a + [x], b) == Diff(a, b)
    ensures x !in b ==> Diff(a + [x], b) == Diff(a, b) + [x]
  {
    assert (a + [x])[..|a|] == a;
  }

  lemma AppendAssoc(a: Tags, b: Tags, x: string)
    ensures (a + b) + [x] == a + (b + [x])
  {
  }

  /** One more added tag that the current list already holds changes nothing. */
  lemma MergeStepKnownTag(current: Tags, init: Tags, last: string)
    requires Unique(current + init) == current + Unique(Diff(init, current))
    requires last in current
    ensures Unique((current + init) + [last]) == current + Unique(Diff(init + [last], current))
  {
    UniqueSnoc(current + init, last);
    DiffSnoc(init, current, last);
    assert last in current + init;
  }

  /** One more added tag that the current list lacks is appended unless an earlier added tag was the same. */
  lemma MergeStepNewTag(current: Tags, init: Tags, last: string)
    requires Unique(current + init) == current + Unique(Diff(init, current))
    requires last !in current
    ensures Unique((current + init) + [last]) == current + Unique(Diff(init + [last], current))
  {
    var d := Diff(init, current);
    UniqueSnoc(current + init, last);
    DiffSnoc(init, current, last);
    assert last in current + init <==> last in d;
    UniqueSnoc(d, last);
    if last !in d {
      AppendAssoc(current, Unique(d), last);
    }
  }

  /** Saving the same tags twice leaves the list as the first save made it. */
  lemma MergeIdempotent(current: Tags, added: Tags)
    ensures MergeTags(MergeTags(current, added), added) == MergeTags(current, added)
  {
    var m := MergeTags(current, added);
    MergeAppendsNewTags(m, added);
    assert Diff(added, m) == [] by {
      DiffEmptyWhenCovered(added, m);
    }
  }

  lemma {:induction false} DiffEmptyWhenCovered(a: Tags, b: Tags)
    requires forall x :: x in a ==> x in b
    ensures Diff(a, b) == []
  {
    if a != [] {
      DiffEmptyWhenCovered(a[..|a| - 1], b);
    }
  }

  /** count(array_diff($a, $b)) == count($a) holds exactly when no entry of a is in b. */
  lemma {:induction false} DiffFullIffDisjoint(a: Tags, b: Tags)
    ensures |Diff(a, b)| == |a| <==> forall x :: x in a ==> x !in b
  {
    if a != [] {
      var init, last := a[..|a| - 1], a[|a| - 1];
      DiffFullIffDisjoint(init, b);
      assert forall x :: x in a <==> x in init || x == last;
    }
  }

  /** Some tag of `tags` occurs in `list`. */
  predicate SharesTag(list: Tags, tags: Tags)
  {
    exists t :: t in tags && t in list
  }

  /** The ids whose tag list shares no tag with `tags`. */
  function Unmatched(index: Index, tags: Tags): Index
  {
    map id | id in index && !SharesTag(index[id], tags) :: index[id]
  }

  /** The ids whose tag list shares at least one tag with `tags`. */
  function Matched(index: Index, tags: Tags): Index
  {
    map id | id in index && SharesTag(index[id], tags) :: index[id]
  }

  /** Matched and Unmatched split the index: disjoint, together all of it, entries untouched. */
  lemma MatchedUnmatchedPartition(index: Index, tags: Tags)
    ensures Matched(index, tags).Keys !! Unmatched(index, tags).Keys
    ensures Matched(index, tags).Keys + Unmatched(index, tags).Keys == index.Keys
    ensures Matched(index, tags) + Unmatched(index, tags) == index
  {
    var m, u := Matched(index, tags), Unmatched(index, tags);
    assert (m + u).Keys == index.Keys;
  }

  /** The three per-id tests of clean()'s loops. */
  datatype SweepRule =
    | Everything            // CLEANING_MODE_ALL
    | HasTag(tag: string)   // one $tag of MATCHING_TAG / MATCHING_ANY_TAG: in_array($tag, ...)
    | SharesNone(tags: Tags)  // NOT_MATCHING_TAG: count($tags) == count(array_diff($tags, ...))

  predicate Selects(rule: SweepRule, list: Tags)
  {
    match rule
    case Everything => true
    case HasTag(t) => t in list
    case SharesNone(ts) => |Diff(ts, list)| == |ts|
  }

  /** The ids one sweep removes. */
  function Selected(index: Index, rule: SweepRule): set<string>
  {
    set id | id in index && Selects(rule, index[id])
  }

  /** The index after one sweep has unset every selected id. */
  function Swept(index: Index, rule: SweepRule): Index
  {
    map id | id in index && !Selects(rule, index[id]) :: index[id]
  }

  /** Unmatched against no tags at all keeps everything. */
  lemma UnmatchedNothing(index: Index)
    ensures Unmatched(index, []) == index
  {
  }

  /**
    The tag-matching modes sweep once per requested tag over a shrinking index;
    after the sweep for tags[i], exactly the ids sharing no tag with tags[..i+1] remain.
   */
  lemma SweepStep(index: Index, tags: Tags, i: nat)
    requires i < |tags|
    ensures Swept(Unmatched(index, tags[..i]), HasTag(tags[i])) == Unmatched(index, tags[..i + 1])
  {
    var before := Unmatched(index, tags[..i]);
    var after := Swept(before, HasTag(tags[i]));
    var want := Unmatched(index, tags[..i + 1]);
    assert tags[..i + 1] == tags[..i] + [tags[i]];
    forall id | id in index
      ensures SharesTag(index[id], tags[..i + 1]) <==> SharesTag(index[id], tags[..i]) || tags[i] in index[id]
    {
      if SharesTag(index[id], tags[..i + 1]) {
        var t :| t in tags[..i + 1] && t in index[id];
        if t != tags[i] {
          assert t in tags[..i];
        }
      }
      if tags[i] in index[id] {
        assert tags[i] in tags[..i + 1];
      }
      if SharesTag(index[id], tags[..i]) {
        var t :| t in tags[..i] && t in index[id];
        assert t in tags[..i + 1];
      }
    }
    assert after.Keys == want.Keys;
  }

  /** The NOT_MATCHING_TAG sweep keeps exactly the ids that share a tag with the request. */
  lemma NotMatchingKeepsMatched(index: Index, tags: Tags)
    ensures Swept(index, SharesNone(tags)) == Matched(index, tags)
    ensures Selected(index, SharesNone(tags)) == Unmatched(index, tags).Keys
  {
    forall id | id in index
      ensures Selects(SharesNone(tags), index[id]) <==> !SharesTag(index[id], tags)
    {
      DiffFullIffDisjoint(tags, index[id]);
    }
  }

  /** The ALL sweep removes every id. */
  lemma SweepEverything(index: Index)
    ensures Swept(index, Everything) == map[]
    ensures Selected(index, Everything) == index.Keys
  {
  }

  /**
    A sweep in progress: the ids still in `pending` are kept whatever their
    tags, the others only when the rule does not select them.
   */
  function PartlySwept(index: Index, rule: SweepRule, pending: set<string>): (r: Index)
    ensures pending == index.Keys ==> r == index
    ensures pending == {} ==> r == Swept(index, rule)
  {
    map id | id in index && (id in pending || !Selects(rule, index[id])) :: index[id]
  }

  /** The ids a sweep in progress has already removed. */
  function PartlySelected(index: Index, rule: SweepRule, pending: set<string>): (r: set<string>)
    ensures pending == index.Keys ==> r == {}
    ensures pending == {} ==> r == Selected(index, rule)
  {
    set id | id in index && id !in pending && Selects(rule, index[id])
  }

  /** Visiting one more pending id either removes it, when the rule selects it, or keeps it. */
  lemma SweepProgress(index: Index, rule: SweepRule, pending: set<string>, id: string)
    requires id in pending && pending <= index.Keys
    ensures Selects(rule, index[id]) ==>
              && PartlySwept(index, rule, pending - {id}) == PartlySwept(index, rule, pending) - {id}
              && PartlySelected(index, rule, pending - {id}) == PartlySelected(index, rule, pending) + {id}
    ensures !Selects(rule, index[id]) ==>
              && PartlySwept(index, rule, pending - {id}) == PartlySwept(index, rule, pending)
              && PartlySelected(index, rule, pending - {id}) == PartlySelected(index, rule, pending)
  {
  }

  /** The ids one tag's sweep removes join those the earlier tags' sweeps removed. */
  lemma MatchedStep(index: Index, tags: Tags, i: nat)
    requires i < |tags|
    ensures Matched(index, tags[..i + 1]).Keys
         == Matched(index, tags[..i]).Keys + Selected(Unmatched(index, tags[..i]), HasTag(tags[i]))
  {
    SweepStep(index, tags, i);
    MatchedUnmatchedPartition(index, tags[..i]);
    MatchedUnmatchedPartition(index, tags[..i + 1]);
  }

  /** An id the sweep for one requested tag selects shares a tag with the whole request. */
  lemma SelectedByTagIsMatched(index: Index, tags: Tags, i: nat, id: string)
    requires i < |tags|
    requires id in Selected(Unmatched(index, tags[..i]), HasTag(tags[i]))
    ensures id in Matched(index, tags)
  {
    assert tags[i] in tags && tags[i] in index[id];
  }

  /**
    save() on a tag list without duplicates keeps that list and appends the new
    tags; the entries of all other ids stay as they were.
   */
  lemma AddTagsAppends(index: Index, id: string, tags: Tags)
    requires id in index ==> NoDuplicates(index[id])
    ensures var current := if id in index then index[id] else [];
            AddTags(index, id, tags)[id] == current + Unique(Diff(tags, current))
  {
    var current := if id in index then index[id] else [];
    MergeAppendsNewTags(current, tags);
  }
}
