# Dynatrace Config Manager: item index and manifest writer, in Dafny

This project models two pieces of the `one-topology` Go code of the Dynatrace
Config Manager and proves properties of them.

**The item index** (`pkg/match/index_items.go`). Matching configuration
entities between two environments starts by indexing each side's items under
the values they carry at a rule's attribute path:

- `GetValueFromPath` walks nested JSON maps along the path.
- `GetValueFromList` optionally projects a list of `{key, value}` maps to the
  values of the matching elements.
- `addValueToIndex` / `addUniqueValueToIndex` append the item's id to each
  non-empty string it yields.
- `flattenSortIndex` turns the map into an array sorted by value.
- `genSortedItemsIndex` runs all of this over the remaining candidates.

**The manifest writer** (`pkg/manifest/manifest_writer.go`). This is the pure
part of writing a manifest file:

- `toWriteableProjects` writes one record per ordinary project. Projects whose
  dotted name spells their path collapse into one record per group.
- `toWriteableEnvironmentGroups` buckets the environments by group.
- `getAuth`, `toWriteableURL` and `getTokenSecret` build each environment's
  written URL and credentials.

How Go features are modelled:

- A Go runtime panic from a failed type assertion is a `Panic` outcome
  (`Common.Outcome`).
- A Go `nil` is `Option.None`.
- The decoded JSON tree is `Attributes.Tree`.
- Go's unordered map iteration is a loop that picks its next key with `:|`, so
  every contract holds for every iteration order.
- Loops in the source are `method`s with invariants. Each is proved against a
  specification function:
  - `BuildIndex` describes the index grouping;
  - `SortedView` describes the sorted array;
  - `SimpleKeys` / `GroupNames` describe the projects;
  - `MembersOf` / `Placed` describe the environment groups.
- The index map that the Go code mutates through a pointer is the `groups`
  field of the class `ValueIndex.Index`.
- The sorted slice is an `array` sorted in place.

Files:

| file | contents |
|---|---|
| `common.dfy` | `Option`, `Outcome` |
| `attributes.dfy` | the JSON tree; stand-ins for the rule types of the `rules` package |
| `byte_order.dfy` | Go's `<` on strings, and its lexicographic meaning |
| `extraction.dfy` | `GetValueFromPath`, `GetValueFromList` |
| `value_index.dfy` | `addUniqueValueToIndex`, `addValueToIndex`, the grouping `BuildIndex` |
| `sorted_index.dfy` | `sort.Sort` by value, `flattenSortIndex`, `genSortedItemsIndex`, uniqueness of the sorted view |
| `index_scenarios.dfy` | worked examples of the index build |
| `go_strings.dfy` | `strings.ReplaceAll`, `Split`, `TrimSuffix` for one-character separators; `Join`, the inverse of `Split`, used to state the round trip |
| `manifest_writer.dfy` | the project and environment conversions |

## Model

| member | source | states |
|---|---|---|
| ByteOrder.Less | one-topology/pkg/match/index_items.go:34 | a string ordered before another differs from it, and the later one is non-empty |
| ByteOrder.LessMatchesReference | one-topology/pkg/match/index_items.go:34 | the `<` used by `Less` holds exactly when the first string is a proper prefix of the second or is smaller at the first difference |
| ByteOrder.LessIsLexicographic | one-topology/pkg/match/index_items.go:34 | `a < b` implies `a` is a proper prefix of `b` or smaller at their first difference |
| ByteOrder.ProperPrefixIsLess | one-topology/pkg/match/index_items.go:34 | a proper prefix orders before the string it prefixes |
| ByteOrder.FirstDifferenceIsLess | one-topology/pkg/match/index_items.go:34 | a smaller character at the first difference orders the string first |
| ByteOrder.LessIrreflexive | one-topology/pkg/match/index_items.go:34 | no string orders before itself |
| ByteOrder.LessTransitive | one-topology/pkg/match/index_items.go:34 | the order is transitive |
| ByteOrder.LessTotal | one-topology/pkg/match/index_items.go:34 | any two different strings are ordered one way |
| ByteOrder.LessAsymmetric | one-topology/pkg/match/index_items.go:34 | never both `a < b` and `b < a` |
| Extraction.ValueFromPath | one-topology/pkg/match/index_items.go:76-102 | an empty path gives nil, and a non-nil result is never the JSON `null` node |
| Extraction.GetValueFromPath | one-topology/pkg/match/index_items.go:76-102 | the loop returns the value of the path walk `ValueFromPath`: nil for an empty path, a missing field or a nil leaf; a panic when a step meets a non-map |
| Extraction.WalkAppend | one-topology/pkg/match/index_items.go:85-95 | walking `p + q` is walking `p` and then `q` from where it ended |
| Extraction.ReachedIffEveryStepFound | one-topology/pkg/match/index_items.go:85-95 | the walk reaches a node exactly when every step finds its field in a map |
| Extraction.AllFieldsPresentGivesNode | one-topology/pkg/match/index_items.go:85-101 | when every field is present, the result is the reached node, or nil when that node is nil |
| Extraction.ValueFromPathSome | one-topology/pkg/match/index_items.go:76-102 | the result is `v` exactly when the path is non-empty, every field is present, the walk ends at `v` and `v` is not nil |
| Extraction.MissingFieldGivesNil | one-topology/pkg/match/index_items.go:87-93 | a missing field at any step makes the result nil |
| Extraction.NonMapStepPanics | one-topology/pkg/match/index_items.go:87 | a step on a value that is not a map panics |
| Extraction.ValueFromList | one-topology/pkg/match/index_items.go:104-156 | nil or a non-list input gives nil; a non-nil result is never empty |
| Extraction.GetValueFromList | one-topology/pkg/match/index_items.go:104-156 | the loop returns `ValueFromList` |
| Extraction.ScanElements | one-topology/pkg/match/index_items.go:120-148 | a completed scan collects at most one value per element |
| Extraction.ScanBadElement | one-topology/pkg/match/index_items.go:120-147 | an element that is not well formed stops the scan; the first such element decides between nil and a panic |
| Extraction.BadElementVoidsProjection | one-topology/pkg/match/index_items.go:120-147 | one element that is not well formed makes the whole projection nil or a panic, never a partial list |
| Extraction.ScanWellFormed | one-topology/pkg/match/index_items.go:120-148 | over well-formed elements the scan collects the values of the matching elements, in order |
| Extraction.WellFormedListProjects | one-topology/pkg/match/index_items.go:118-154 | over well-formed elements the result is the matched values, or nil when none matched |
| Extraction.MatchedValuesMembership | one-topology/pkg/match/index_items.go:137-141 | a string is collected exactly when some element matches the key and carries that string as its value |
| ValueIndex.Added | one-topology/pkg/match/index_items.go:36-44 | the empty string leaves the index unchanged; any other string gets the id appended to its list; every other key keeps its list |
| ValueIndex.AddedAll | one-topology/pkg/match/index_items.go:58-71 | adding the strings one by one, as the `range` loops at :58-61 and :68-71 do, never drops a key |
| ValueIndex.AddedAllIds | one-topology/pkg/match/index_items.go:46-74 | after adding several strings, each non-empty key's list gains the id once per occurrence of that key |
| ValueIndex.AddedAllKeys | one-topology/pkg/match/index_items.go:46-74 | after adding several strings, the keys are the old keys plus every non-empty string added |
| ValueIndex.StrValues | one-topology/pkg/match/index_items.go:65-73 | the strings of an all-string list, element by element |
| ValueIndex.Index.constructor | one-topology/pkg/match/index_items.go:178 | the index starts empty |
| ValueIndex.Index.AddUniqueValueToIndex | one-topology/pkg/match/index_items.go:36-44 | the new index is `Added(old index, value, id)` |
| ValueIndex.StringsOf | one-topology/pkg/match/index_items.go:46-74 | only a list can panic; a list that does not panic yields one string per element; a map or nil yields no string |
| ValueIndex.Index.AddValueToIndex | one-topology/pkg/match/index_items.go:46-74 | panics exactly when a `[]interface{}` holds a non-string; otherwise the new index is the old one with the id added under each string the value yields |
| ValueIndex.ExtractValue | one-topology/pkg/match/index_items.go:182-185 | without a list-item key the value is a tree node; with one it is the projected `[]string` |
| ValueIndex.ItemStrings | one-topology/pkg/match/index_items.go:182-187 | an item whose extracted value is nil contributes no string; with a list-item key, any panic comes from the lookup or projection, never from adding the projected strings |
| ValueIndex.BuildIndex | one-topology/pkg/match/index_items.go:180-190 | a built index never has the empty string as a key |
| ValueIndex.BuildIndexPanics | one-topology/pkg/match/index_items.go:180-190 | building the index panics exactly when some candidate's item panics |
| ValueIndex.BuildIndexIds | one-topology/pkg/match/index_items.go:180-190 | each key's id list is the candidates that yield that key, in candidate order, repeated once per occurrence |
| ValueIndex.OccurrencesMembership | one-topology/pkg/match/index_items.go:180-190 | an id is among a key's occurrences exactly when it is a candidate whose item yields that non-empty key |
| ValueIndex.BuildIndexNoEmpty | one-topology/pkg/match/index_items.go:38-42 | the built index has no empty-string key and no empty id list |
| ValueIndex.BuildIndexMembership | one-topology/pkg/match/index_items.go:176-190 | id appears under key exactly when it is a candidate whose item yields that non-empty key |
| ValueIndex.NilValueAppearsNowhere | one-topology/pkg/match/index_items.go:186-188 | an item whose value is nil is under no key |
| SortedIndex.EntryLess | one-topology/pkg/match/index_items.go:34 | an entry ordered before another has a different value, and the later value is non-empty |
| SortedIndex.MinIndexFrom | one-topology/pkg/match/index_items.go:171 | returns the position of the entry with the smallest value in the suffix |
| SortedIndex.SwapEntries | one-topology/pkg/match/index_items.go:33 | swaps two entries and keeps the multiset of entries |
| SortedIndex.SelectionStep | one-topology/pkg/match/index_items.go:171 | moving the suffix minimum to the front extends the sorted, partitioned prefix by one |
| SortedIndex.SortByIndexValue | one-topology/pkg/match/index_items.go:30-34 | the array ends strictly sorted by value and is a permutation of what it held |
| SortedIndex.FillStep | one-topology/pkg/match/index_items.go:163-169 | writing the entry for one more key keeps the filled prefix exactly the entries of the keys seen |
| SortedIndex.FillEntries | one-topology/pkg/match/index_items.go:160-169 | returns a new array of one entry per map key, each holding that key's ids, with distinct values |
| SortedIndex.SortedFillingIsView | one-topology/pkg/match/index_items.go:158-174 | a sorted permutation of the filled entries is the sorted view of the map |
| SortedIndex.FlattenSortIndex | one-topology/pkg/match/index_items.go:158-174 | returns a new array with one entry per key, holding each key with its ids, strictly sorted by value |
| SortedIndex.IndexCandidate | one-topology/pkg/match/index_items.go:181-188 | one candidate panics exactly when its item's strings panic; otherwise its strings are added under its id |
| SortedIndex.GenSortedItemsIndex | one-topology/pkg/match/index_items.go:176-195 | panics exactly when `BuildIndex` panics; otherwise returns a new array that is the sorted view of `BuildIndex` |
| SortedIndex.PanicAt | one-topology/pkg/match/index_items.go:180-190 | a panic on any candidate makes the whole build panic |
| SortedIndex.HeadIsLeast | one-topology/pkg/match/index_items.go:171 | the first entry of a sorted array is its least |
| SortedIndex.TailMembers | one-topology/pkg/match/index_items.go:171 | the tail of a sorted array holds every entry but the first |
| SortedIndex.SortedSame | one-topology/pkg/match/index_items.go:171 | two strictly sorted sequences with the same members are equal |
| SortedIndex.SortedViewUnique | one-topology/pkg/match/index_items.go:158-195 | the sorted view of a map is unique, so the result does not depend on map iteration order |
| SortedIndex.SortedViewLength | one-topology/pkg/match/index_items.go:160 | the sorted view has exactly one entry per key |
| SortedIndex.DistinctCount | one-topology/pkg/match/index_items.go:171 | a strictly sorted sequence has as many distinct values as entries |
| IndexScenarios.NameScenarioGroups | one-topology/pkg/match/index_items.go:176-190 | items `{name:A}`, `{name:B}`, `{name:A}` index as `A -> [0, 2]`, `B -> [1]` |
| IndexScenarios.NameFirstTwo | one-topology/pkg/match/index_items.go:176-190 | after the first two candidates the index is `A -> [0]`, `B -> [1]` |
| IndexScenarios.NameItemStrings | one-topology/pkg/match/index_items.go:182-187 | each of the three items yields its own name |
| IndexScenarios.BuildStep | one-topology/pkg/match/index_items.go:180-190 | a candidate yielding one string extends the index by that string |
| IndexScenarios.AddedAllSingle | one-topology/pkg/match/index_items.go:58-61 | adding a one-string list is adding that string |
| IndexScenarios.NameScenarioSorted | one-topology/pkg/match/index_items.go:158-174 | the only sorted view of that index is `[(A, [0, 2]), (B, [1])]` |
| IndexScenarios.TagScenario | one-topology/pkg/match/index_items.go:104-156 | a tag list `[{key: env, value: prod}]` with key `(key, env, value)` indexes the item under `prod` |
| IndexScenarios.MalformedScenario | one-topology/pkg/match/index_items.go:137-144 | a matching element without the value field makes the projection nil |
| IndexScenarios.FanOutScenario | one-topology/pkg/match/index_items.go:65-73 | an item whose attribute is `["a", "b"]` appears under both strings |
| IndexScenarios.FanOutStrings | one-topology/pkg/match/index_items.go:65-73 | the list yields both its strings, in order |
| IndexScenarios.FanOutAdded | one-topology/pkg/match/index_items.go:68-71 | adding both strings under id 0 gives `a -> [0]`, `b -> [0]` |
| GoStrings.ReplaceAll | one-topology/pkg/manifest/manifest_writer.go:104 | replacing one character by another keeps the length |
| GoStrings.ReplaceAllAt | one-topology/pkg/manifest/manifest_writer.go:104 | each position holds the replacement where the original held the replaced character, and the original character elsewhere |
| GoStrings.ReplaceAllAppend | one-topology/pkg/manifest/manifest_writer.go:104 | replacing in a concatenation is concatenating the replacements |
| GoStrings.ReplaceAllAbsent | one-topology/pkg/manifest/manifest_writer.go:104 | a string without the replaced character is unchanged |
| GoStrings.LastIndex | one-topology/pkg/manifest/manifest_writer.go:108 | returns a position of the separator |
| GoStrings.LastIndexIsLast | one-topology/pkg/manifest/manifest_writer.go:108 | no separator follows that position |
| GoStrings.Split | one-topology/pkg/manifest/manifest_writer.go:108 | splitting always yields at least one part |
| GoStrings.SplitJoinsBack | one-topology/pkg/manifest/manifest_writer.go:108 | joining the parts with the separator gives the string back |
| GoStrings.SplitPartsFree | one-topology/pkg/manifest/manifest_writer.go:108 | no part contains the separator |
| GoStrings.LastIndexOfJoin | one-topology/pkg/manifest/manifest_writer.go:108 | in `a + sep + b` with `b` free of the separator, the last separator is the one after `a` |
| GoStrings.SplitJoin | one-topology/pkg/manifest/manifest_writer.go:108 | splitting a join of separator-free parts gives the parts back |
| GoStrings.SplitLast | one-topology/pkg/manifest/manifest_writer.go:108-109 | a string with the separator splits into at least two parts, and it is the join of all but the last, the separator, and the last |
| GoStrings.TrimSuffix | one-topology/pkg/manifest/manifest_writer.go:110-111 | with the suffix, the result followed by the suffix is the input; without it, the input is returned |
| ManifestWriter.IsGroupingProject | one-topology/pkg/manifest/manifest_writer.go:102-105 | a grouping project's path has the name's length, contains a slash and no dot |
| ManifestWriter.ExtractGroupedProjectDetails | one-topology/pkg/manifest/manifest_writer.go:107-114 | the group name is a prefix of the project name and the group path a prefix of the project path |
| ManifestWriter.SimpleProject | one-topology/pkg/manifest/manifest_writer.go:86-92 | an untyped record under the project's name; the path is kept exactly when it differs from the name, and is empty otherwise |
| ManifestWriter.GroupProject | one-topology/pkg/manifest/manifest_writer.go:78-82 | a group-typed record under the group name, whose path has the name's length and no dot |
| ManifestWriter.LastSegment | one-topology/pkg/manifest/manifest_writer.go:108-109 | the last dot-separated segment holds no dot |
| ManifestWriter.DottedNameEnds | one-topology/pkg/manifest/manifest_writer.go:108-110 | a dotted name ends with a dot and its last segment |
| ManifestWriter.UndottedNameIsLast | one-topology/pkg/manifest/manifest_writer.go:108-109 | an undotted name is its own last segment |
| ManifestWriter.ExtractGroupName | one-topology/pkg/manifest/manifest_writer.go:107-114 | the group name followed by a dot and the last segment is a dotted name; an undotted name is its own group name |
| ManifestWriter.ExtractGroupPath | one-topology/pkg/manifest/manifest_writer.go:111 | when the path ends with a slash and the last segment, the group path followed by them is the path; otherwise the group path is the path |
| ManifestWriter.GroupPathFollowsName | one-topology/pkg/manifest/manifest_writer.go:102-114 | for a grouping project the group path is the group name with dots turned into slashes, so every project of a group writes the same group record |
| ManifestWriter.SimpleWrittenStep | one-topology/pkg/manifest/manifest_writer.go:86-92 | one more key appends the record of a non-grouping project and leaves the records alone for a grouping one |
| ManifestWriter.KeyedByImageStep | one-topology/pkg/manifest/manifest_writer.go:75-83 | one more key adds its group name, mapped to that group's record, exactly when it is a grouping project |
| ManifestWriter.GroupRecords | one-topology/pkg/manifest/manifest_writer.go:95-97 | one group record per group name |
| ManifestWriter.CollectProjects | one-topology/pkg/manifest/manifest_writer.go:71-93 | the first loop writes the record of every non-grouping project once and maps every group name met to its group record |
| ManifestWriter.AppendGroupRecords | one-topology/pkg/manifest/manifest_writer.go:95-97 | the second loop appends the record of every collected group once, after the ordinary records |
| ManifestWriter.ToWriteableProjects | one-topology/pkg/manifest/manifest_writer.go:70-100 | the records are, in the order of a ghost sequence holding each non-grouping project key exactly once, the record of each such project (path kept only when it differs from the name); then one group record per distinct group name, with dots in its path turned into slashes, each name exactly once; nothing else is written |
| ManifestWriter.ProjectsAssembled | one-topology/pkg/manifest/manifest_writer.go:70-100 | the two loops together meet the contract of `ToWriteableProjects` |
| ManifestWriter.ProjectsWrittenUpToGroupOrder | one-topology/pkg/manifest/manifest_writer.go:70-100 | two results for the same key order have the same length and the same ordinary records, and each one's group records are among the other's, so the output is fixed up to map iteration order |
| ManifestWriter.GroupRecordsAmong | one-topology/pkg/manifest/manifest_writer.go:95-97 | each group record of one result is among the group records of another result for the same key order |
| ManifestWriter.SimpleRecordsKept | one-topology/pkg/manifest/manifest_writer.go:86-97 | appending group records keeps each ordinary record at the position of its key |
| ManifestWriter.GroupRecordsKept | one-topology/pkg/manifest/manifest_writer.go:95-97 | after the ordinary records, the records of distinct group names hold each collected group once and nothing but group records |
| ManifestWriter.EnvironmentEntry | one-topology/pkg/manifest/manifest_writer.go:120-124 | the record carries the map key as name; its URL is environment-typed exactly for an environment URL; an unnamed token defaults to the environment name plus `_TOKEN`; OAuth is absent exactly for classic environments |
| ManifestWriter.GetTokenSecret | one-topology/pkg/manifest/manifest_writer.go:185-197 | an environment-typed secret naming the configured token, or the environment name with `_TOKEN` when none is configured; never empty |
| ManifestWriter.UrlOf | one-topology/pkg/manifest/manifest_writer.go:173-182 | a URL definition is written environment-typed exactly when it is an environment URL, then carrying its variable name; otherwise untyped, carrying its literal value |
| ManifestWriter.ToWriteableUrl | one-topology/pkg/manifest/manifest_writer.go:172-183 | typed as environment exactly for an environment URL, carrying its variable name; otherwise untyped and carrying the literal value |
| ManifestWriter.TokenEndpoint | one-topology/pkg/manifest/manifest_writer.go:141-154 | absent exactly when undefined or of an unknown type; otherwise written like a URL |
| ManifestWriter.GetAuth | one-topology/pkg/manifest/manifest_writer.go:136-170 | always the token secret; OAuth exactly for non-classic environments, with environment-typed client id and secret, and a token endpoint exactly when one of a known type is defined |
| ManifestWriter.TokenEndpointLikeUrl | one-topology/pkg/manifest/manifest_writer.go:141-154 | a recognised token endpoint is written the way `toWriteableURL` would write that URL |
| ManifestWriter.MembersOfAnyStep | one-topology/pkg/manifest/manifest_writer.go:129-131 | adding one group adds its member count |
| ManifestWriter.BucketsPlacedStep | one-topology/pkg/manifest/manifest_writer.go:119-127 | appending an environment to its group's bucket keeps every bucket to its own group's environments, with distinct names |
| ManifestWriter.UnbucketedGroupUntouched | one-topology/pkg/manifest/manifest_writer.go:126 | a group without a bucket has no environment handled yet |
| ManifestWriter.MembersOfOwnStep | one-topology/pkg/manifest/manifest_writer.go:126 | handling an environment adds one to its group's handled count |
| ManifestWriter.MembersOfOtherStep | one-topology/pkg/manifest/manifest_writer.go:126 | handling an environment leaves other groups' handled members alone |
| ManifestWriter.BucketsSizedStep | one-topology/pkg/manifest/manifest_writer.go:119-127 | after the append, each bucket is as long as its group's handled environments |
| ManifestWriter.SlotsFilledStep | one-topology/pkg/manifest/manifest_writer.go:119-127 | after the append, every handled environment sits at its recorded position in its bucket |
| ManifestWriter.BucketEnvironments | one-topology/pkg/manifest/manifest_writer.go:117-127 | the first loop buckets every environment under its group, once each, with its map key as name; the buckets are keyed by exactly the groups the environments name, and none is empty |
| ManifestWriter.BucketsNonEmptyStep | one-topology/pkg/manifest/manifest_writer.go:126 | appending to a bucket keeps every bucket non-empty |
| ManifestWriter.BucketKeys | one-topology/pkg/manifest/manifest_writer.go:117-127 | once every environment is handled, the bucket keys are exactly the groups named |
| ManifestWriter.BucketsFull | one-topology/pkg/manifest/manifest_writer.go:117-127 | once every environment is handled, each bucket is as long as its group has environments |
| ManifestWriter.GroupsInOrder | one-topology/pkg/manifest/manifest_writer.go:129-131 | one group record per bucket name in the given order |
| ManifestWriter.CountStep | one-topology/pkg/manifest/manifest_writer.go:130 | appending a group adds its environments to the count |
| ManifestWriter.EmitGroups | one-topology/pkg/manifest/manifest_writer.go:129-131 | the second loop writes every bucket once as a group record, and the records hold as many environments as the groups have |
| ManifestWriter.ToWriteableEnvironmentGroups | one-topology/pkg/manifest/manifest_writer.go:116-134 | distinct group names, each a group some environment names; no group is empty; each written environment belongs to its group and is that environment's record under its map key; every environment is written; names are distinct within a group; the records hold exactly as many environments as the input |
| ManifestWriter.EnvironmentGroupsAssembled | one-topology/pkg/manifest/manifest_writer.go:116-134 | the two loops together meet the contract of `ToWriteableEnvironmentGroups` |
| ManifestWriter.GroupsPlaced | one-topology/pkg/manifest/manifest_writer.go:129-131 | the group records have distinct names, each naming a group of the input; each is non-empty and holds only its own environments, with distinct names |
| ManifestWriter.GroupsCover | one-topology/pkg/manifest/manifest_writer.go:119-131 | every environment appears in some group record |
| ManifestWriter.AllGroupsBucketed | one-topology/pkg/manifest/manifest_writer.go:119-127 | every environment's group has a bucket |

## Left out

- `WriteManifest` and `persistManifestToDisk` (`manifest_writer.go:36-68`): they create directories, marshal YAML and write the file. That is file-system I/O and a foreign serialiser. Only the two conversions they call are modelled.
- The order of Go map iteration is not modelled. The loops choose keys with `:|`, and every contract holds for any order. Results that Go fixes only up to that order are stated up to it: project and group records, and group buckets.
- The order in which `toWriteableProjects` meets the keys is a ghost out-parameter of `ManifestWriter.ToWriteableProjects`. The ordinary records follow that order exactly, and the group records are fixed as a set of distinct names. Their order is that of Go map iteration and is not modelled.
- ManifestWriter.ToWriteableEnvironmentGroups: "each environment once" is stated as presence, distinct names within a group, and an exact total count, rather than as a multiset equality. The order of the groups and of the environments inside a group follows Go map iteration and is not pinned.
- The two loops of `toWriteableProjects` and of `toWriteableEnvironmentGroups` are each split into two methods (`CollectProjects`/`AppendGroupRecords`, `BucketEnvironments`/`EmitGroups`). The loop body of `genSortedItemsIndex` is the method `SortedIndex.IndexCandidate`. The map walk of `flattenSortIndex` is the method `SortedIndex.FillEntries`. This is one Go function written as parts, not extra behaviour.
- `getAuth` dereferences `env.Auth.OAuth` unchecked for non-classic environments. The model takes the OAuth definition as a value, so the nil-pointer panic on a platform environment without OAuth is not modelled.
- Strings are sequences of characters. Go compares and splits UTF-8 bytes. Byte order and character order agree for the byte values used, but multi-byte characters are not modelled byte by byte.
- `strings.Split`, `ReplaceAll` and `TrimSuffix` are modelled only for the one-character separators the manifest writer passes (`"."`, `"/"`). `strings.Contains` is membership of the character.
- JSON numbers and booleans in item attributes are not modelled. The tree has strings, lists, maps and nil, which are the only shapes the index code tells apart. In Go a number or boolean behaves like any other non-map node on the path (a panic) and adds nothing to the index as a value.
- `sort.Sort` is modelled by a selection sort with the same contract: a strictly sorted permutation. Its internal algorithm is not modelled. Values are map keys and therefore distinct, so stability does not matter.
- The `rules` package and `MatchProcessingEnv` are not part of this model. Rules are the stand-in `IndexRule(path, listItemKey)`, and the environment is the raw item list plus the candidate ids.
- The contents of the partly built index after a panic are not modelled. A panic aborts the build, and the model returns only `Panic`.
- The Python back end (`flask-backend`) is context only and is not modelled.
