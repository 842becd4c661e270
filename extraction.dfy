/** `GetValueFromPath` and `GetValueFromList` of one-topology/pkg/match/index_items.go. */
module Extraction {
  import opened Common
  import opened Attributes
  import opened Rules

  // ---------------------------------------------------------------------------
  // GetValueFromPath
  // ---------------------------------------------------------------------------

  /** Where a walk along a field path ends: at a node, at a map that lacks the
      next field, or at a node that is not a map although fields remain. */
  datatype Walked = Reached(node: Tree) | FieldMissing | NotAMap

  /** Descend from `t` through map nodes along `path`. */
  function Walk(t: Tree, path: seq<string>): Walked
    decreases |path|
  {
    if path == [] then Reached(t)
    else match t
      case Map(m) => if path[0] in m then Walk(m[path[0]], path[1..]) else FieldMissing
      case _ => NotAMap
  }

  /** What `GetValueFromPath` returns: nil (`None`) for an empty path, a missing
      field or a nil node reached; a panic when a step meets a non-map node
      (the unchecked type assertion `current.(map[string]interface{})`). */
  function ValueFromPath(item: Tree, path: seq<string>): (r: Outcome<Option<Tree>>)
    ensures |path| == 0 ==> r == Ok(None)
    ensures r.Ok? && r.value.Some? ==> r.value.value != Null
  {
    if |path| == 0 then Ok(None)
    else match Walk(item, path)
      case Reached(n) => if n == Null then Ok(None) else Ok(Some(n))
      case FieldMissing => Ok(None)
      case NotAMap => Panic
  }

  method GetValueFromPath(item: Tree, path: seq<string>) returns (r: Outcome<Option<Tree>>)
    ensures r == ValueFromPath(item, path)
  {
    if |path| <= 0 {
      return Ok(None);
    }
    var current := item;
    for i := 0 to |path|
      invariant Walk(item, path) == Walk(current, path[i..])
    {
      match current {
        case Map(m) =>
          if path[i] in m {
            current := m[path[i]];
          } else {
            current := Null;
            break;
          }
        case _ =>
          return Panic;
      }
    }
    if current == Null {
      r := Ok(None);
    } else {
      r := Ok(Some(current));
    }
  }

  /** Continue a walk that reached a node along further fields. */
  function Then(w: Walked, rest: seq<string>): Walked
  {
    match w
    case Reached(n) => Walk(n, rest)
    case _ => w
  }

  /** A walk along `p + q` is a walk along `p` continued along `q`. */
  lemma {:induction false} WalkAppend(t: Tree, p: seq<string>, q: seq<string>)
    ensures Walk(t, p + q) == Then(Walk(t, p), q)
    decreases |p|
  {
    if p != [] {
      assert (p + q)[0] == p[0] && (p + q)[1..] == p[1..] + q;
      match t
      case Map(m) =>
        if p[0] in m {
          WalkAppend(m[p[0]], p[1..], q);
        }
      case _ =>
    } else {
      assert p + q == q;
    }
  }

  /** Step `k` of the walk finds a map holding `path[k]`. */
  ghost predicate StepFound(item: Tree, path: seq<string>, k: nat)
    requires k < |path|
  {
    var w := Walk(item, path[..k]);
    w.Reached? && w.node.Map? && path[k] in w.node.fields
  }

  /** The walk reaches a node exactly when every step finds its field in a map. */
  lemma {:induction false} ReachedIffEveryStepFound(item: Tree, path: seq<string>)
    ensures Walk(item, path).Reached? <==> forall k :: 0 <= k < |path| ==> StepFound(item, path, k)
  {
    if path != [] {
      var n := |path| - 1;
      assert path == path[..n] + [path[n]];
      WalkAppend(item, path[..n], [path[n]]);
      ReachedIffEveryStepFound(item, path[..n]);
      assert forall k :: 0 <= k < n ==> path[..n][..k] == path[..k];
      assert forall k :: 0 <= k < n ==> StepFound(item, path[..n], k) == StepFound(item, path, k);
      assert [path[n]][1..] == [];
      var w := Walk(item, path[..n]);
      if w.Reached? && w.node.Map? && path[n] in w.node.fields {
        assert Walk(w.node, [path[n]]) == Walk(w.node.fields[path[n]], []);
      }
      assert Walk(item, path).Reached? <==> w.Reached? && StepFound(item, path, n);
    }
  }

  /** All fields present: the value is the node reached, unless that node is nil. */
  lemma AllFieldsPresentGivesNode(item: Tree, path: seq<string>)
    requires |path| > 0
    requires forall k :: 0 <= k < |path| ==> StepFound(item, path, k)
    ensures Walk(item, path).Reached?
    ensures ValueFromPath(item, path) ==
      (if Walk(item, path).node == Null then Ok(None) else Ok(Some(Walk(item, path).node)))
  {
    ReachedIffEveryStepFound(item, path);
  }

  /** A value is returned exactly when the path is non-empty, every step finds
      its field in a map, and the node reached is not nil. */
  lemma ValueFromPathSome(item: Tree, path: seq<string>, v: Tree)
    ensures ValueFromPath(item, path) == Ok(Some(v)) <==>
      |path| > 0 && (forall k :: 0 <= k < |path| ==> StepFound(item, path, k))
      && Walk(item, path) == Reached(v) && v != Null
  {
    ReachedIffEveryStepFound(item, path);
  }

  /** A field missing from a map node on the way makes the result nil. */
  lemma MissingFieldGivesNil(item: Tree, path: seq<string>, k: nat, m: map<string, Tree>)
    requires k < |path|
    requires Walk(item, path[..k]) == Reached(Map(m)) && path[k] !in m
    ensures ValueFromPath(item, path) == Ok(None)
  {
    assert path == path[..k] + path[k..];
    WalkAppend(item, path[..k], path[k..]);
  }

  /** Descending through a node that is not a map (a string, a list or nil) panics. */
  lemma NonMapStepPanics(item: Tree, path: seq<string>, k: nat, n: Tree)
    requires k < |path|
    requires Walk(item, path[..k]) == Reached(n) && !n.Map?
    ensures ValueFromPath(item, path) == Panic
  {
    assert path == path[..k] + path[k..];
    WalkAppend(item, path[..k], path[k..]);
  }

  // ---------------------------------------------------------------------------
  // GetValueFromList
  // ---------------------------------------------------------------------------

  /** The state of the scan over the list elements: the values collected so far,
      an early `return nil`, or a panic. */
  datatype Scan = Collected(values: seq<string>) | Rejected | ScanPanic

  /** Values collected before the scan of the remaining elements. */
  function Prepend(values: seq<string>, rest: Scan): Scan
  {
    match rest
    case Collected(vs) => Collected(values + vs)
    case _ => rest
  }

  /** Scan the elements in order: a non-map element or one lacking the key field
      rejects the whole list; a matching element contributes its value field,
      or rejects the list when it has none; a non-string key or value panics. */
  function ScanElements(key: ListItemKey, elems: seq<Tree>): (r: Scan)
    ensures r.Collected? ==> |r.values| <= |elems|
  {
    if elems == [] then Collected([])
    else match elems[0]
      case Map(m) =>
        if key.keyKey !in m then Rejected
        else if !m[key.keyKey].Str? then ScanPanic
        else if m[key.keyKey].s != key.keyValue then ScanElements(key, elems[1..])
        else if key.valueKey !in m then Rejected
        else if !m[key.valueKey].Str? then ScanPanic
        else Prepend([m[key.valueKey].s], ScanElements(key, elems[1..]))
      case _ => Rejected
  }

  /** What `GetValueFromList` returns: nil for nil or non-list input, for a
      rejected list and for an empty result; otherwise the collected strings. */
  function ValueFromList(key: ListItemKey, value: Option<Tree>): (r: Outcome<Option<seq<string>>>)
    ensures !(value.Some? && value.value.List?) ==> r == Ok(None)
    ensures r.Ok? && r.value.Some? ==> |r.value.value| > 0
  {
    match value
    case Some(List(elems)) =>
      (match ScanElements(key, elems)
       case Collected(vs) => if |vs| == 0 then Ok(None) else Ok(Some(vs))
       case Rejected => Ok(None)
       case ScanPanic => Panic)
    case _ => Ok(None)
  }

  method GetValueFromList(key: ListItemKey, value: Option<Tree>) returns (r: Outcome<Option<seq<string>>>)
    ensures r == ValueFromList(key, value)
  {
    if value == None || value == Some(Null) {
      return Ok(None);
    }
    if !value.value.List? {
      return Ok(None);
    }
    var elems := value.value.elems;
    var values: seq<string> := [];
    for i := 0 to |elems|
      invariant ScanElements(key, elems) == Prepend(values, ScanElements(key, elems[i..]))
    {
      assert elems[i..][0] == elems[i] && elems[i..][1..] == elems[i + 1..];
      var item := elems[i];
      if !item.Map? {
        return Ok(None);
      }
      var itemMap := item.fields;
      if key.keyKey !in itemMap {
        return Ok(None);
      }
      var keyValue := itemMap[key.keyKey];
      if !keyValue.Str? {
        return Panic;
      }
      if keyValue.s == key.keyValue {
        if key.valueKey in itemMap {
          var valueValue := itemMap[key.valueKey];
          if !valueValue.Str? {
            return Panic;
          }
          assert values + ([valueValue.s] + []) == values + [valueValue.s];
          values := values + [valueValue.s];
        } else {
          return Ok(None);
        }
      }
    }
    assert elems[|elems|..] == [] && values + [] == values;
    if |values| == 0 {
      return Ok(None);
    }
    return Ok(Some(values));
  }

  /** An element that makes the projection return nil: not a map, no key field,
      or a matching key field but no value field. */
  predicate RejectsList(key: ListItemKey, e: Tree)
  {
    !e.Map? || key.keyKey !in e.fields ||
    (e.fields[key.keyKey] == Str(key.keyValue) && key.valueKey !in e.fields)
  }

  /** An element that makes the projection panic: a key field that is not a string,
      or a matching element whose value field is not a string. */
  predicate PanicsList(key: ListItemKey, e: Tree)
  {
    e.Map? && key.keyKey in e.fields &&
    (!e.fields[key.keyKey].Str? ||
     (e.fields[key.keyKey].s == key.keyValue && key.valueKey in e.fields && !e.fields[key.valueKey].Str?))
  }

  predicate WellFormed(key: ListItemKey, e: Tree)
  {
    !RejectsList(key, e) && !PanicsList(key, e)
  }

  /** The element's key field is the string `key.keyValue`. */
  predicate IsMatch(key: ListItemKey, e: Tree)
  {
    e.Map? && key.keyKey in e.fields && e.fields[key.keyKey] == Str(key.keyValue)
  }

  /** Reference definition: the value fields of the matching elements, in list order. */
  function MatchedValues(key: ListItemKey, elems: seq<Tree>): seq<string>
    requires forall i :: 0 <= i < |elems| ==> WellFormed(key, elems[i])
  {
    if elems == [] then []
    else
      assert WellFormed(key, elems[0]);
      var head := if IsMatch(key, elems[0]) then [elems[0].fields[key.valueKey].s] else [];
      head + MatchedValues(key, elems[1..])
  }

  lemma {:induction false} ScanBadElement(key: ListItemKey, elems: seq<Tree>, j: nat)
    requires j < |elems| && !WellFormed(key, elems[j])
    ensures !ScanElements(key, elems).Collected?
    ensures (forall i :: 0 <= i < j ==> WellFormed(key, elems[i])) ==>
      ScanElements(key, elems) == (if PanicsList(key, elems[j]) then ScanPanic else Rejected)
  {
    if j > 0 && WellFormed(key, elems[0]) {
      ScanBadElement(key, elems[1..], j - 1);
      assert forall i :: 0 <= i < j - 1 ==> elems[1..][i] == elems[i + 1];
    }
  }

  /** One malformed element (not a map, no key field, a matching element without
      a value field, or a non-string key or value) means the projection never
      yields values, whatever the other elements hold; when every element before
      it is well formed, the result is nil or the panic that element causes. */
  lemma BadElementVoidsProjection(key: ListItemKey, elems: seq<Tree>, j: nat)
    requires j < |elems| && !WellFormed(key, elems[j])
    ensures !(ValueFromList(key, Some(List(elems))).Ok? && ValueFromList(key, Some(List(elems))).value.Some?)
    ensures (forall i :: 0 <= i < j ==> WellFormed(key, elems[i])) ==>
      ValueFromList(key, Some(List(elems))) == (if PanicsList(key, elems[j]) then Panic else Ok(None))
  {
    ScanBadElement(key, elems, j);
  }

  lemma {:induction false} ScanWellFormed(key: ListItemKey, elems: seq<Tree>)
    requires forall i :: 0 <= i < |elems| ==> WellFormed(key, elems[i])
    ensures ScanElements(key, elems) == Collected(MatchedValues(key, elems))
  {
    if elems != [] {
      ScanWellFormed(key, elems[1..]);
    }
  }

  /** Over well-formed elements the projection returns the value fields of exactly
      the matching elements, in list order, and nil when none matches. */
  lemma WellFormedListProjects(key: ListItemKey, elems: seq<Tree>)
    requires forall i :: 0 <= i < |elems| ==> WellFormed(key, elems[i])
    ensures ValueFromList(key, Some(List(elems))) ==
      (if MatchedValues(key, elems) == [] then Ok(None) else Ok(Some(MatchedValues(key, elems))))
  {
    ScanWellFormed(key, elems);
  }

  /** A string is among the matched values exactly when some matching element
      carries it in its value field. */
  lemma {:induction false} MatchedValuesMembership(key: ListItemKey, elems: seq<Tree>, v: string)
    requires forall i :: 0 <= i < |elems| ==> WellFormed(key, elems[i])
    ensures v in MatchedValues(key, elems) <==>
      exists i :: 0 <= i < |elems| && IsMatch(key, elems[i]) && elems[i].fields[key.valueKey] == Str(v)
  {
    if elems != [] {
      MatchedValuesMembership(key, elems[1..], v);
      assert forall i :: 1 <= i < |elems| ==> elems[i] == elems[1..][i - 1];
      if exists i :: 0 <= i < |elems| && IsMatch(key, elems[i]) && elems[i].fields[key.valueKey] == Str(v) {
        var i :| 0 <= i < |elems| && IsMatch(key, elems[i]) && elems[i].fields[key.valueKey] == Str(v);
        if i > 0 {
          assert IsMatch(key, elems[1..][i - 1]);
        }
      }
    }
  }
}
