/** Worked examples of the index build, stated over the model. */
module IndexScenarios {
  import opened Common
  import opened Attributes
  import opened Rules
  import opened Extraction
  import opened ValueIndex
  import opened SortedIndex

  const NameItems: seq<Tree> :=
    [Map(map["name" := Str("A")]), Map(map["name" := Str("B")]), Map(map["name" := Str("A")])]

  const NameRule := IndexRule(["name"], NoListItemKey)

  /** Items `[{name:A}, {name:B}, {name:A}]`, path `["name"]`, candidates
      `[0, 1, 2]`: `A` groups ids 0 and 2, `B` groups id 1. */
  lemma NameScenarioGroups()
    ensures BuildIndex(NameItems, NameRule, [0, 1, 2]) == Ok(map["A" := [0, 2], "B" := [1]])
  {
    var g := map["A" := [0], "B" := [1]];
    NameItemStrings();
    NameFirstTwo();
    BuildStep(NameItems, NameRule, [0, 1], 2, g, "A");
    assert [0, 1] + [2] == [0, 1, 2];
    assert Added(g, "A", 2) == g["A" := [0, 2]] by {
      assert IdsOf(g, "A") + [2] == [0, 2];
    }
    assert g["A" := [0, 2]] == map["A" := [0, 2], "B" := [1]];
  }

  /** After the first two candidates, `A` holds id 0 and `B` id 1. */
  lemma NameFirstTwo()
    ensures BuildIndex(NameItems, NameRule, [0, 1]) == Ok(map["A" := [0], "B" := [1]])
  {
    NameItemStrings();
    BuildStep(NameItems, NameRule, [], 0, map[], "A");
    assert IdsOf(map[], "A") + [0] == [0];
    BuildStep(NameItems, NameRule, [0], 1, map["A" := [0]], "B");
    assert IdsOf(map["A" := [0]], "B") + [1] == [1];
  }

  /** The string each of the three items contributes. */
  lemma NameItemStrings()
    ensures ItemStrings(NameItems[0], NameRule) == Ok(["A"])
    ensures ItemStrings(NameItems[1], NameRule) == Ok(["B"])
    ensures ItemStrings(NameItems[2], NameRule) == Ok(["A"])
  {
  }

  /** One more candidate contributing a single string. */
  lemma BuildStep(items: seq<Tree>, rule: IndexRule, cs: seq<nat>, c: nat, g: Groups, v: string)
    requires ValidIds(items, cs) && c < |items|
    requires BuildIndex(items, rule, cs) == Ok(g)
    requires ItemStrings(items[c], rule) == Ok([v])
    ensures BuildIndex(items, rule, cs + [c]) == Ok(Added(g, v, c))
    ensures ValidIds(items, cs + [c])
  {
    assert (cs + [c])[..|cs|] == cs;
    AddedAllSingle(g, v, c);
  }

  lemma AddedAllSingle(g: Groups, value: string, id: nat)
    ensures AddedAll(g, [value], id) == Added(g, value, id)
  {
    assert [value][..0] == [];
  }

  /** ... and the only sorted view of that grouping is `[(A, [0, 2]), (B, [1])]`. */
  lemma NameScenarioSorted(s: seq<IndexEntry>)
    requires SortedView(s, map["A" := [0, 2], "B" := [1]])
    ensures s == [IndexEntry("A", [0, 2]), IndexEntry("B", [1])]
  {
    var g: Groups := map["A" := [0, 2], "B" := [1]];
    var expected := [IndexEntry("A", [0, 2]), IndexEntry("B", [1])];
    assert ByteOrder.Less("A", "B");
    assert StrictlySorted(expected);
    assert expected[0].indexValue == "A" && expected[1].indexValue == "B";
    assert SortedView(expected, g);
    SortedViewUnique(s, expected, g);
  }

  const TagKey := ListItemKey("key", "env", "value")

  /** `[{tags: [{key: env, value: prod}]}]` with the list-item key
      `(key, env, value)` is indexed under `prod`. */
  lemma TagScenario()
    ensures BuildIndex([Map(map["tags" := List([Map(map["key" := Str("env"), "value" := Str("prod")])])])],
                       IndexRule(["tags"], TagKey), [0]) == Ok(map["prod" := [0]])
  {
    var elem := Map(map["key" := Str("env"), "value" := Str("prod")]);
    assert ScanElements(TagKey, [elem][1..]) == Collected([]);
    assert ScanElements(TagKey, [elem]) == Collected(["prod"]);
    AddedAllSingle(map[], "prod", 0);
    assert IdsOf(map[], "prod") + [0] == [0];
    var cs: seq<nat> := [0];
    assert cs[..0] == [];
  }

  /** A matching element without a value field makes the projection nil, not a partial list. */
  lemma MalformedScenario()
    ensures ValueFromList(TagKey, Some(List([Map(map["key" := Str("env")])]))) == Ok(None)
  {
  }

  const FanOutItem := Map(map["tags" := List([Str("a"), Str("b")])])

  /** An item whose attribute is `["a", "b"]` appears under both values. */
  lemma FanOutScenario()
    ensures BuildIndex([FanOutItem], IndexRule(["tags"], NoListItemKey), [0]) == Ok(map["a" := [0], "b" := [0]])
  {
    FanOutStrings();
    FanOutAdded();
    var cs: seq<nat> := [0];
    assert cs[..0] == [];
  }

  /** The item contributes both strings of its list, in order. */
  lemma FanOutStrings()
    ensures ItemStrings(FanOutItem, IndexRule(["tags"], NoListItemKey)) == Ok(["a", "b"])
  {
    var es := [Str("a"), Str("b")];
    assert es[..1] == [Str("a")] && es[..1][..0] == [];
    assert StrValues(es) == ["a", "b"];
  }

  /** Adding both strings under id 0 to the empty index. */
  lemma FanOutAdded()
    ensures AddedAll(map[], ["a", "b"], 0) == map["a" := [0], "b" := [0]]
  {
    var ss := ["a", "b"];
    assert ss[..1] == ["a"] && ss[..1][..0] == [];
    AddedAllSingle(map[], "a", 0);
    assert IdsOf(map[], "a") + [0] == [0];
    assert IdsOf(map["a" := [0]], "b") + [0] == [0];
  }
}
