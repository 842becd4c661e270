/** The schema-less attribute tree of one configuration item, as Go's
    `encoding/json` decodes it into `interface{}`: a string, a slice
    `[]interface{}`, a map `map[string]interface{}` or nil. */
module Attributes {

  datatype Tree =
    | Str(s: string)
    | List(elems: seq<Tree>)
    | Map(fields: map<string, Tree>)
    | Null
}

/** Stand-ins for the `rules` package, which is not part of this model:
    a rule is a field path plus an optional list-item key. */
module Rules {

  /** Locate the list element whose `keyKey` field equals `keyValue`
      and take its `valueKey` field. The zero value (all empty) means "none". */
  datatype ListItemKey = ListItemKey(keyKey: string, keyValue: string, valueKey: string)

  const NoListItemKey := ListItemKey("", "", "")

  datatype IndexRule = IndexRule(path: seq<string>, listItemKey: ListItemKey)
}
