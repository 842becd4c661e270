/** `IndexEntry`, `ByIndexValue`, `flattenSortIndex` and `genSortedItemsIndex`
    of one-topology/pkg/match/index_items.go. */
module SortedIndex {
  import opened Common
  import opened Attributes
  import opened Rules
  import opened ByteOrder
  import opened Extraction
  import opened ValueIndex

  datatype IndexEntry = IndexEntry(indexValue: string, matchedIds: seq<nat>)

  /** Stand-in for `MatchProcessingEnv`: the item bodies (ids are positions)
      and the current candidate ids. */
  datatype MatchProcessingEnv = MatchProcessingEnv(rawMatchList: seq<Tree>, currentRemainingMatch: seq<nat>)

  /** `ByIndexValue.Less`: byte-wise order of the index values. */
  predicate EntryLess(a: IndexEntry, b: IndexEntry)
    ensures EntryLess(a, b) ==> a.indexValue != b.indexValue && b.indexValue != ""
  {
    Less(a.indexValue, b.indexValue)
  }

  ghost predicate DistinctValues(s: seq<IndexEntry>)
  {
    forall i, j :: 0 <= i < j < |s| ==> s[i].indexValue != s[j].indexValue
  }

  ghost predicate StrictlySorted(s: seq<IndexEntry>)
  {
    forall i, j :: 0 <= i < j < |s| ==> EntryLess(s[i], s[j])
  }

  /** `s` lists every key of `g` once, with its id list, in increasing byte-wise order. */
  ghost predicate SortedView(s: seq<IndexEntry>, g: Groups)
  {
    && StrictlySorted(s)
    && (forall i :: 0 <= i < |s| ==> s[i].indexValue in g && s[i].matchedIds == g[s[i].indexValue])
    && (forall k :: k in g ==> exists i :: 0 <= i < |s| && s[i].indexValue == k)
  }

  /** The position in `a[lo..]` of the entry with the least value. */
  method MinIndexFrom(a: array<IndexEntry>, lo: nat) returns (m: nat)
    requires lo < a.Length
    requires DistinctValues(a[..])
    ensures lo <= m < a.Length
    ensures forall y :: lo <= y < a.Length && y != m ==> EntryLess(a[m], a[y])
  {
    m := lo;
    for j := lo + 1 to a.Length
      invariant lo <= m < j
      invariant forall y :: lo <= y < j && y != m ==> EntryLess(a[m], a[y])
    {
      if EntryLess(a[j], a[m]) {
        forall y | lo <= y < j && y != m
          ensures EntryLess(a[j], a[y])
        {
          LessTransitive(a[j].indexValue, a[m].indexValue, a[y].indexValue);
        }
        m := j;
      } else {
        assert a[..][m] == a[m] && a[..][j] == a[j];
        LessTotal(a[m].indexValue, a[j].indexValue);
      }
    }
  }

  ghost predicate SortedPrefix(s: seq<IndexEntry>, i: nat)
  {
    forall x, y :: 0 <= x < y < i && y < |s| ==> EntryLess(s[x], s[y])
  }

  /** Every entry before position `i` is below every entry from `i` on. */
  ghost predicate Partitioned(s: seq<IndexEntry>, i: nat)
  {
    forall x, y :: 0 <= x < i <= y < |s| ==> EntryLess(s[x], s[y])
  }

  method SwapEntries(a: array<IndexEntry>, i: nat, j: nat)
    requires i < a.Length && j < a.Length
    modifies a
    ensures a[..] == old(a[..])[i := old(a[j])][j := old(a[i])]
    ensures multiset(a[..]) == multiset(old(a[..]))
  {
    a[i], a[j] := a[j], a[i];
  }

  /** Moving the least remaining entry to position `i` extends the sorted prefix. */
  lemma SelectionStep(s: seq<IndexEntry>, i: nat, m: nat)
    requires i <= m < |s|
    requires DistinctValues(s) && SortedPrefix(s, i) && Partitioned(s, i)
    requires forall y :: i <= y < |s| && y != m ==> EntryLess(s[m], s[y])
    ensures DistinctValues(s[i := s[m]][m := s[i]])
    ensures SortedPrefix(s[i := s[m]][m := s[i]], i + 1)
    ensures Partitioned(s[i := s[m]][m := s[i]], i + 1)
  {
    var t := s[i := s[m]][m := s[i]];
    assert forall x :: 0 <= x < |s| ==> t[x] == (if x == i then s[m] else if x == m then s[i] else s[x]);
  }

  /** `sort.Sort(ByIndexValue(flatIndex))`. The library's algorithm is not
      modelled; a selection sort stands in. With distinct values the result is
      strictly increasing, and it is a permutation of the input. */
  method SortByIndexValue(a: array<IndexEntry>)
    requires DistinctValues(a[..])
    modifies a
    ensures StrictlySorted(a[..])
    ensures multiset(a[..]) == multiset(old(a[..]))
  {
    for i := 0 to a.Length
      invariant multiset(a[..]) == multiset(old(a[..]))
      invariant DistinctValues(a[..]) && SortedPrefix(a[..], i) && Partitioned(a[..], i)
    {
      var m := MinIndexFrom(a, i);
      SelectionStep(a[..], i, m);
      SwapEntries(a, i, m);
    }
  }

  /** `s` holds, once each, the entries of `g` whose keys are in `done`. */
  ghost predicate FilledFrom(s: seq<IndexEntry>, g: Groups, done: set<string>)
  {
    && (forall j :: 0 <= j < |s| ==> s[j].indexValue in done && s[j].indexValue in g && s[j].matchedIds == g[s[j].indexValue])
    && (forall k :: k in done ==> exists j :: 0 <= j < |s| && s[j].indexValue == k)
    && DistinctValues(s)
  }

  lemma FillStep(s: seq<IndexEntry>, g: Groups, done: set<string>, k: string)
    requires FilledFrom(s, g, done) && k in g && k !in done
    ensures FilledFrom(s + [IndexEntry(k, g[k])], g, done + {k})
  {
    var t := s + [IndexEntry(k, g[k])];
    forall k' | k' in done + {k}
      ensures exists j :: 0 <= j < |t| && t[j].indexValue == k'
    {
      if k' == k {
        assert t[|s|].indexValue == k;
      } else {
        var j :| 0 <= j < |s| && s[j].indexValue == k';
        assert t[j].indexValue == k';
      }
    }
  }

  /** A strictly sorted permutation of a complete filling is the sorted view. */
  lemma SortedFillingIsView(before: seq<IndexEntry>, after: seq<IndexEntry>, g: Groups)
    requires FilledFrom(before, g, g.Keys)
    requires multiset(after) == multiset(before) && StrictlySorted(after)
    ensures SortedView(after, g)
  {
    forall i | 0 <= i < |after|
      ensures after[i].indexValue in g && after[i].matchedIds == g[after[i].indexValue]
    {
      assert after[i] in multiset(before);
    }
    forall k | k in g
      ensures exists i :: 0 <= i < |after| && after[i].indexValue == k
    {
      var j :| 0 <= j < |before| && before[j].indexValue == k;
      assert before[j] in multiset(after);
      var i :| 0 <= i < |after| && after[i] == before[j];
    }
  }

  method FlattenSortIndex(index: Index) returns (flat: array<IndexEntry>)
    ensures fresh(flat)
    ensures flat.Length == |index.groups|
    ensures SortedView(flat[..], index.groups)
  {
    flat := FillEntries(index.groups);
    ghost var before := flat[..];
    SortByIndexValue(flat);
    SortedFillingIsView(before, flat[..], index.groups);
  }

  /** The map walk of flattenSortIndex: one entry per key, in whatever order
      the map yields its keys. */
  method FillEntries(g: Groups) returns (flat: array<IndexEntry>)
    ensures fresh(flat)
    ensures flat.Length == |g|
    ensures FilledFrom(flat[..], g, g.Keys)
  {
    flat := new IndexEntry[|g|];
    var remaining := g.Keys;
    var idx := 0;
    assert |g.Keys| == |g|;
    while remaining != {}
      invariant remaining <= g.Keys
      invariant idx + |remaining| == |g| == flat.Length
      invariant FilledFrom(flat[..idx], g, g.Keys - remaining)
      decreases remaining
    {
      var k :| k in remaining;
      ghost var filled := flat[..idx];
      FillStep(filled, g, g.Keys - remaining, k);
      flat[idx] := IndexEntry(k, g[k]);
      assert flat[..idx + 1] == filled + [IndexEntry(k, g[k])];
      assert g.Keys - (remaining - {k}) == (g.Keys - remaining) + {k};
      idx := idx + 1;
      remaining := remaining - {k};
    }
    assert flat[..idx] == flat[..] && g.Keys - remaining == g.Keys;
  }

  method GenSortedItemsIndex(rule: IndexRule, env: MatchProcessingEnv) returns (r: Outcome<array<IndexEntry>>)
    requires ValidIds(env.rawMatchList, env.currentRemainingMatch)
    ensures r.Panic? <==> BuildIndex(env.rawMatchList, rule, env.currentRemainingMatch).Panic?
    ensures r.Ok? ==> fresh(r.value)
    ensures r.Ok? ==> SortedView(r.value[..], BuildIndex(env.rawMatchList, rule, env.currentRemainingMatch).value)
  {
    var items := env.rawMatchList;
    var candidates := env.currentRemainingMatch;
    var index := new Index();
    for i := 0 to |candidates|
      invariant BuildIndex(items, rule, candidates[..i]) == Ok(index.groups)
    {
      var itemIdx := candidates[i];
      assert candidates[..i + 1][..i] == candidates[..i];
      var panicked := IndexCandidate(index, items[itemIdx], rule, itemIdx);
      if panicked {
        PanicAt(items, rule, candidates, i);
        return Panic;
      }
    }
    assert candidates[..|candidates|] == candidates;
    var flat := FlattenSortIndex(index);
    return Ok(flat);
  }

  /** One pass of the candidate loop: look the value up, project it through
      the list-item key when the rule has one, and add it to the index. */
  method IndexCandidate(index: Index, item: Tree, rule: IndexRule, itemIdx: nat) returns (panicked: bool)
    modifies index
    ensures panicked <==> ItemStrings(item, rule).Panic?
    ensures !panicked ==> index.groups == AddedAll(old(index.groups), ItemStrings(item, rule).value, itemIdx)
  {
    var found := GetValueFromPath(item, rule.path);
    if found.Panic? {
      return true;
    }
    var value := if found.value.Some? then Some(TreeValue(found.value.value)) else None;
    if rule.listItemKey != NoListItemKey && rule.listItemKey.keyKey != "" {
      var projected := GetValueFromList(rule.listItemKey, found.value);
      if projected.Panic? {
        return true;
      }
      value := if projected.value.Some? then Some(StringSlice(projected.value.value)) else None;
    }
    panicked := false;
    if value.Some? {
      panicked := index.AddValueToIndex(value.value, itemIdx);
    }
  }

  /** A panic on one candidate aborts the whole build. */
  lemma PanicAt(items: seq<Tree>, rule: IndexRule, candidates: seq<nat>, i: nat)
    requires ValidIds(items, candidates) && i < |candidates|
    requires ItemStrings(items[candidates[i]], rule).Panic?
    ensures BuildIndex(items, rule, candidates).Panic?
  {
    BuildIndexPanics(items, rule, candidates);
  }

  lemma HeadIsLeast(s: seq<IndexEntry>, e: IndexEntry)
    requires StrictlySorted(s) && e in s
    ensures e == s[0] || EntryLess(s[0], e)
  {
  }

  lemma TailMembers(s: seq<IndexEntry>, e: IndexEntry)
    requires StrictlySorted(s) && |s| > 0
    ensures e in s[1..] <==> e in s && e != s[0]
  {
    LessIrreflexive(s[0].indexValue);
    if e in s && e != s[0] {
      var i :| 0 <= i < |s| && s[i] == e;
      assert s[1..][i - 1] == e;
    }
  }

  /** Two strictly sorted sequences with the same entries are equal. */
  lemma {:induction false} SortedSame(s1: seq<IndexEntry>, s2: seq<IndexEntry>)
    requires StrictlySorted(s1) && StrictlySorted(s2)
    requires forall e :: e in s1 <==> e in s2
    ensures s1 == s2
    decreases |s1|
  {
    if s1 != [] {
      assert s1[0] in s2;
    }
    if s2 != [] {
      assert s2[0] in s1;
    }
    if s1 != [] {
      var a, b := s1[0], s2[0];
      HeadIsLeast(s2, a);
      HeadIsLeast(s1, b);
      LessIrreflexive(a.indexValue);
      if Less(a.indexValue, b.indexValue) {
        LessAsymmetric(a.indexValue, b.indexValue);
      }
      forall e
        ensures e in s1[1..] <==> e in s2[1..]
      {
        TailMembers(s1, e);
        TailMembers(s2, e);
      }
      SortedSame(s1[1..], s2[1..]);
    }
  }

  /** The sorted view of a grouping is unique: whatever order Go's map
      iteration fills the array in, the sorted index is the same, so two builds
      over the same rule and candidates give identical output. */
  lemma SortedViewUnique(s1: seq<IndexEntry>, s2: seq<IndexEntry>, g: Groups)
    requires SortedView(s1, g) && SortedView(s2, g)
    ensures s1 == s2
  {
    forall e | e in s1
      ensures e in s2
    {
      var j :| 0 <= j < |s2| && s2[j].indexValue == e.indexValue;
    }
    forall e | e in s2
      ensures e in s1
    {
      var j :| 0 <= j < |s1| && s1[j].indexValue == e.indexValue;
    }
    SortedSame(s1, s2);
  }

  /** A sorted view has exactly one entry per key of the grouping. */
  lemma SortedViewLength(s: seq<IndexEntry>, g: Groups)
    requires SortedView(s, g)
    ensures |s| == |g|
  {
    var values := set i | 0 <= i < |s| :: s[i].indexValue;
    assert values == g.Keys;
    DistinctCount(s);
  }

  lemma {:induction false} DistinctCount(s: seq<IndexEntry>)
    requires StrictlySorted(s)
    ensures |set i | 0 <= i < |s| :: s[i].indexValue| == |s|
  {
    if s != [] {
      var n := |s| - 1;
      DistinctCount(s[..n]);
      var front := set i | 0 <= i < n :: s[..n][i].indexValue;
      assert (set i | 0 <= i < |s| :: s[i].indexValue) == front + {s[n].indexValue};
      LessIrreflexive(s[n].indexValue);
      assert s[n].indexValue !in front;
    }
  }
}
