/** The value index of one-topology/pkg/match/index_items.go: `IndexMap`,
    `addUniqueValueToIndex`, `addValueToIndex`, and the grouping loop of
    `genSortedItemsIndex` stated as a function of the candidate list. */
module ValueIndex {
  import opened Common
  import opened Attributes
  import opened Rules
  import opened Extraction

  /** `IndexMap`: extracted string value to the ids of the items carrying it. */
  type Groups = map<string, seq<nat>>

  /** The id list stored under `value`; Go's nil slice when the key is absent. */
  function IdsOf(g: Groups, value: string): seq<nat>
  {
    if value in g then g[value] else []
  }

  /** The index after `addUniqueValueToIndex(value, id)`: the empty string is
      dropped; otherwise `id` is appended to that value's list and every other
      key keeps its list. */
  function Added(g: Groups, value: string, id: nat): (r: Groups)
    ensures value == "" ==> r == g
    ensures value != "" ==> r.Keys == g.Keys + {value} && IdsOf(r, value) == IdsOf(g, value) + [id]
    ensures forall k :: k != value ==> IdsOf(r, k) == IdsOf(g, k)
  {
    if value == "" then g else g[value := IdsOf(g, value) + [id]]
  }

  /** `Added` once per string, in order. */
  function AddedAll(g: Groups, values: seq<string>, id: nat): (r: Groups)
    ensures g.Keys <= r.Keys
    decreases |values|
  {
    if values == [] then g
    else Added(AddedAll(g, values[..|values| - 1], id), values[|values| - 1], id)
  }

  function Repeat(id: nat, n: nat): seq<nat>
  {
    seq(n, _ => id)
  }

  /** Adding several strings appends the id once per occurrence of each
      non-empty string, without de-duplication: `["a", "a"]` puts it under
      `"a"` twice. */
  lemma {:induction false} AddedAllIds(g: Groups, values: seq<string>, id: nat, k: string)
    ensures IdsOf(AddedAll(g, values, id), k) ==
      IdsOf(g, k) + Repeat(id, if k == "" then 0 else multiset(values)[k])
    decreases |values|
  {
    if values == [] {
      assert IdsOf(g, k) + Repeat(id, 0) == IdsOf(g, k);
    } else {
      var n := |values| - 1;
      var pre := values[..n];
      assert values == pre + [values[n]];
      AddedAllIds(g, pre, id, k);
      assert multiset(values)[k] == multiset(pre)[k] + (if values[n] == k then 1 else 0);
      if k != "" && k == values[n] {
        RepeatOneMore(id, multiset(pre)[k]);
      }
    }
  }

  lemma RepeatOneMore(id: nat, n: nat)
    ensures Repeat(id, n) + [id] == Repeat(id, n + 1)
  {
    assert forall i :: 0 <= i < n + 1 ==> (Repeat(id, n) + [id])[i] == id;
  }

  /** The keys after adding several strings: the old keys and every non-empty string. */
  lemma {:induction false} AddedAllKeys(g: Groups, values: seq<string>, id: nat)
    ensures AddedAll(g, values, id).Keys == g.Keys + (set v | v in values && v != "")
    decreases |values|
  {
    if values != [] {
      var n := |values| - 1;
      var pre := values[..n];
      assert values == pre + [values[n]];
      AddedAllKeys(g, pre, id);
    }
  }

  /** The Go value handed to `addValueToIndex`: a tree node from
      `GetValueFromPath`, or the `[]string` built by `GetValueFromList`. */
  datatype Value = TreeValue(tree: Tree) | StringSlice(strings: seq<string>)

  /** The strings of a list whose elements are all strings, in order. */
  function StrValues(es: seq<Tree>): (r: seq<string>)
    requires forall i :: 0 <= i < |es| ==> es[i].Str?
    ensures |r| == |es| && forall i :: 0 <= i < |es| ==> r[i] == es[i].s
    decreases |es|
  {
    if es == [] then [] else StrValues(es[..|es| - 1]) + [es[|es| - 1].s]
  }

  /** The strings `addValueToIndex` adds for a value: one for a string, each
      element of a `[]string`, each element of a `[]interface{}` (a panic on a
      non-string element), and none for any other shape. */
  function StringsOf(v: Value): (r: Outcome<seq<string>>)
    ensures r.Panic? ==> v.TreeValue? && v.tree.List?
    ensures v.TreeValue? && v.tree.List? && r.Ok? ==> |r.value| == |v.tree.elems|
    ensures v.TreeValue? && !v.tree.Str? && !v.tree.List? ==> r == Ok([])
  {
    match v
    case TreeValue(Str(s)) => Ok([s])
    case StringSlice(ss) => Ok(ss)
    case TreeValue(List(es)) =>
      if forall i :: 0 <= i < |es| ==> es[i].Str? then Ok(StrValues(es)) else Panic
    case _ => Ok([])
  }

  /** The `*IndexMap` that `addUniqueValueToIndex` and `addValueToIndex` update in place. */
  class Index {
    var groups: Groups

    constructor ()
      ensures groups == map[]
    {
      groups := map[];
    }

    method AddUniqueValueToIndex(value: string, itemId: nat)
      modifies this
      ensures groups == Added(old(groups), value, itemId)
    {
      if value == "" {
        return;
      }
      groups := groups[value := IdsOf(groups, value) + [itemId]];
    }

    /** On a panic the index is left half-updated; the panic aborts the whole
        index build, so that state is never observed. */
    method AddValueToIndex(value: Value, itemId: nat) returns (panicked: bool)
      modifies this
      ensures panicked <==> StringsOf(value).Panic?
      ensures !panicked ==> groups == AddedAll(old(groups), StringsOf(value).value, itemId)
    {
      panicked := false;
      match value {
        case TreeValue(Str(s)) =>
          AddUniqueValueToIndex(s, itemId);
          assert [s][..0] == [];
        case StringSlice(ss) =>
          for i := 0 to |ss|
            invariant groups == AddedAll(old(groups), ss[..i], itemId)
          {
            assert ss[..i + 1][..i] == ss[..i];
            AddUniqueValueToIndex(ss[i], itemId);
          }
          assert ss[..|ss|] == ss;
          assert StringsOf(value) == Ok(ss);
        case TreeValue(List(es)) =>
          for i := 0 to |es|
            invariant forall j :: 0 <= j < i ==> es[j].Str?
            invariant groups == AddedAll(old(groups), StrValues(es[..i]), itemId)
          {
            if !es[i].Str? {
              assert StringsOf(value) == Panic;
              return true;
            }
            assert es[..i + 1][..i] == es[..i];
            AddUniqueValueToIndex(es[i].s, itemId);
          }
          assert es[..|es|] == es;
          assert StringsOf(value) == Ok(StrValues(es));
        case _ =>
      }
    }
  }

  /** The value `genSortedItemsIndex` indexes an item under: the path value,
      projected through the list-item key when its `KeyKey` is set. */
  function ExtractValue(item: Tree, rule: IndexRule): (r: Outcome<Option<Value>>)
    ensures r.Ok? && r.value.Some? && rule.listItemKey.keyKey == "" ==> r.value.value.TreeValue?
    ensures r.Ok? && r.value.Some? && rule.listItemKey.keyKey != "" ==> r.value.value.StringSlice?
  {
    match ValueFromPath(item, rule.path)
    case Panic => Panic
    case Ok(v) =>
      if rule.listItemKey != NoListItemKey && rule.listItemKey.keyKey != "" then
        match ValueFromList(rule.listItemKey, v)
        case Panic => Panic
        case Ok(None) => Ok(None)
        case Ok(Some(ss)) => Ok(Some(StringSlice(ss)))
      else if v.Some? then Ok(Some(TreeValue(v.value)))
      else Ok(None)
  }

  /** The strings an item contributes under a rule (nil contributes none). */
  function ItemStrings(item: Tree, rule: IndexRule): (r: Outcome<seq<string>>)
    ensures ExtractValue(item, rule) == Ok(None) ==> r == Ok([])
    ensures r.Panic? && rule.listItemKey.keyKey != "" ==> ExtractValue(item, rule).Panic?
  {
    match ExtractValue(item, rule)
    case Panic => Panic
    case Ok(None) => Ok([])
    case Ok(Some(v)) => StringsOf(v)
  }

  predicate ValidIds(items: seq<Tree>, candidates: seq<nat>)
  {
    forall j :: 0 <= j < |candidates| ==> candidates[j] < |items|
  }

  /** The grouping built by the loop of `genSortedItemsIndex` over the candidates in order. */
  function BuildIndex(items: seq<Tree>, rule: IndexRule, candidates: seq<nat>): (r: Outcome<Groups>)
    requires ValidIds(items, candidates)
    ensures r.Ok? ==> "" !in r.value
    decreases |candidates|
  {
    if candidates == [] then Ok(map[])
    else
      var n := |candidates| - 1;
      match BuildIndex(items, rule, candidates[..n])
      case Panic => Panic
      case Ok(g) =>
        match ItemStrings(items[candidates[n]], rule)
        case Panic => Panic
        case Ok(ss) =>
          AddedAllKeys(g, ss, candidates[n]);
          Ok(AddedAll(g, ss, candidates[n]))
  }

  /** The build fails exactly when some candidate's extraction or registration panics:
      a type mismatch is a hard failure, never a skipped item. */
  lemma {:induction false} BuildIndexPanics(items: seq<Tree>, rule: IndexRule, candidates: seq<nat>)
    requires ValidIds(items, candidates)
    ensures BuildIndex(items, rule, candidates).Panic? <==>
      exists j :: 0 <= j < |candidates| && ItemStrings(items[candidates[j]], rule).Panic?
    decreases |candidates|
  {
    if candidates != [] {
      var n := |candidates| - 1;
      var prefix := candidates[..n];
      BuildIndexPanics(items, rule, prefix);
      if BuildIndex(items, rule, prefix).Panic? {
        var j :| 0 <= j < n && ItemStrings(items[prefix[j]], rule).Panic?;
        assert candidates[j] == prefix[j];
      } else if !ItemStrings(items[candidates[n]], rule).Panic? {
        forall j | 0 <= j < |candidates|
          ensures !ItemStrings(items[candidates[j]], rule).Panic?
        {
          if j < n {
            assert candidates[j] == prefix[j];
          }
        }
      }
    }
  }

  /** How often candidate `c` contributes the string `k`; the empty string never counts. */
  function Count(items: seq<Tree>, rule: IndexRule, c: nat, k: string): nat
    requires c < |items|
  {
    if k == "" then 0
    else match ItemStrings(items[c], rule)
      case Ok(ss) => multiset(ss)[k]
      case Panic => 0
  }

  /** Reference definition of one entry: the candidates in candidate-list
      order, each repeated as often as it contributes `k`. */
  function Occurrences(items: seq<Tree>, rule: IndexRule, candidates: seq<nat>, k: string): seq<nat>
    requires ValidIds(items, candidates)
    decreases |candidates|
  {
    if candidates == [] then []
    else
      var n := |candidates| - 1;
      Occurrences(items, rule, candidates[..n], k) + Repeat(candidates[n], Count(items, rule, candidates[n], k))
  }

  /** Every entry of a successful build lists exactly the contributing
      candidates in candidate-list order, with multiplicity. */
  lemma {:induction false} BuildIndexIds(items: seq<Tree>, rule: IndexRule, candidates: seq<nat>, k: string)
    requires ValidIds(items, candidates)
    requires BuildIndex(items, rule, candidates).Ok?
    ensures IdsOf(BuildIndex(items, rule, candidates).value, k) == Occurrences(items, rule, candidates, k)
    decreases |candidates|
  {
    if candidates != [] {
      var n := |candidates| - 1;
      BuildIndexIds(items, rule, candidates[..n], k);
      var g := BuildIndex(items, rule, candidates[..n]).value;
      AddedAllIds(g, ItemStrings(items[candidates[n]], rule).value, candidates[n], k);
    }
  }

  /** Candidate `id` carries the non-empty string `k` under the rule. */
  predicate Contributes(items: seq<Tree>, rule: IndexRule, id: nat, k: string)
    requires id < |items|
  {
    k != "" && ItemStrings(items[id], rule).Ok? && k in ItemStrings(items[id], rule).value
  }

  lemma {:induction false} OccurrencesMembership(items: seq<Tree>, rule: IndexRule, candidates: seq<nat>, k: string, id: nat)
    requires ValidIds(items, candidates)
    ensures id in Occurrences(items, rule, candidates, k) <==>
      id in candidates && Contributes(items, rule, id, k)
    decreases |candidates|
  {
    if candidates != [] {
      var n := |candidates| - 1;
      OccurrencesMembership(items, rule, candidates[..n], k, id);
      assert candidates == candidates[..n] + [candidates[n]];
      var c := candidates[n];
      if Count(items, rule, c, k) > 0 {
        assert Repeat(c, Count(items, rule, c, k))[0] == c;
      }
      assert id in Repeat(c, Count(items, rule, c, k)) <==> id == c && Count(items, rule, c, k) > 0;
    }
  }

  /** A successful build never has the empty string as a key and never an empty entry. */
  lemma {:induction false} BuildIndexNoEmpty(items: seq<Tree>, rule: IndexRule, candidates: seq<nat>)
    requires ValidIds(items, candidates)
    requires BuildIndex(items, rule, candidates).Ok?
    ensures "" !in BuildIndex(items, rule, candidates).value
    ensures forall k :: k in BuildIndex(items, rule, candidates).value ==>
      BuildIndex(items, rule, candidates).value[k] != []
    decreases |candidates|
  {
    if candidates != [] {
      var n := |candidates| - 1;
      BuildIndexNoEmpty(items, rule, candidates[..n]);
      var g := BuildIndex(items, rule, candidates[..n]).value;
      var ss := ItemStrings(items[candidates[n]], rule).value;
      AddedAllKeys(g, ss, candidates[n]);
      forall k | k in AddedAll(g, ss, candidates[n])
        ensures AddedAll(g, ss, candidates[n])[k] != []
      {
        AddedAllIds(g, ss, candidates[n], k);
        if k !in g {
          assert k in ss;
          assert multiset(ss)[k] > 0;
        }
      }
    }
  }

  /** An id sits under the value `k` exactly when it is a candidate that
      contributes `k`: ids come only from the candidate list, the empty string
      is never indexed, and a multi-valued item fans out to every value it carries. */
  lemma BuildIndexMembership(items: seq<Tree>, rule: IndexRule, candidates: seq<nat>, k: string, id: nat)
    requires ValidIds(items, candidates)
    requires BuildIndex(items, rule, candidates).Ok?
    ensures (k in BuildIndex(items, rule, candidates).value && id in BuildIndex(items, rule, candidates).value[k])
      <==> id in candidates && Contributes(items, rule, id, k)
  {
    BuildIndexIds(items, rule, candidates, k);
    OccurrencesMembership(items, rule, candidates, k, id);
  }

  /** An item whose extracted value is nil appears under no value. */
  lemma NilValueAppearsNowhere(items: seq<Tree>, rule: IndexRule, candidates: seq<nat>, id: nat)
    requires ValidIds(items, candidates) && id < |items|
    requires BuildIndex(items, rule, candidates).Ok?
    requires ExtractValue(items[id], rule) == Ok(None)
    ensures forall k :: k in BuildIndex(items, rule, candidates).value ==>
      id !in BuildIndex(items, rule, candidates).value[k]
  {
    forall k | k in BuildIndex(items, rule, candidates).value
      ensures id !in BuildIndex(items, rule, candidates).value[k]
    {
      BuildIndexMembership(items, rule, candidates, k, id);
    }
  }
}
