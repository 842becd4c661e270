/** The parts of Go's `strings` package that manifest_writer.go uses, for a
    one-character separator: `Contains` is membership, and `ReplaceAll`,
    `Split` and `TrimSuffix` are defined here. */
module GoStrings {

  /** `strings.ReplaceAll(s, string(from), string(to))`. */
  function ReplaceAll(s: string, from: char, to: char): (r: string)
    ensures |r| == |s|
  {
    if s == [] then [] else [if s[0] == from then to else s[0]] + ReplaceAll(s[1..], from, to)
  }

  /** Every `from` is replaced by `to`, and every other character is kept. */
  lemma {:induction false} ReplaceAllAt(s: string, from: char, to: char)
    ensures forall i :: 0 <= i < |s| ==>
      ReplaceAll(s, from, to)[i] == (if s[i] == from then to else s[i])
  {
    if s != [] {
      ReplaceAllAt(s[1..], from, to);
    }
  }

  lemma ReplaceAllAppend(a: string, b: string, from: char, to: char)
    ensures ReplaceAll(a + b, from, to) == ReplaceAll(a, from, to) + ReplaceAll(b, from, to)
  {
    ReplaceAllAt(a + b, from, to);
    ReplaceAllAt(a, from, to);
    ReplaceAllAt(b, from, to);
  }

  /** A string without `from` is left as it is. */
  lemma ReplaceAllAbsent(s: string, from: char, to: char)
    requires from !in s
    ensures ReplaceAll(s, from, to) == s
  {
    ReplaceAllAt(s, from, to);
  }

  /** The inverse of `Split`: the parts separated by `sep`. */
  function Join(parts: seq<string>, sep: char): string
    requires |parts| >= 1
  {
    if |parts| == 1 then parts[0]
    else Join(parts[..|parts| - 1], sep) + [sep] + parts[|parts| - 1]
  }

  /** The position of the last `sep` in `s`. */
  function LastIndex(s: string, sep: char): (i: nat)
    requires sep in s
    ensures i < |s| && s[i] == sep
  {
    if s[|s| - 1] == sep then |s| - 1
    else
      assert sep in s[..|s| - 1] by {
        var j :| 0 <= j < |s| && s[j] == sep;
        assert s[..|s| - 1][j] == sep;
      }
      LastIndex(s[..|s| - 1], sep)
  }

  /** No `sep` follows the one `LastIndex` finds. */
  lemma {:induction false} LastIndexIsLast(s: string, sep: char)
    requires sep in s
    ensures sep !in s[LastIndex(s, sep) + 1..]
    decreases |s|
  {
    if s[|s| - 1] != sep {
      var s' := s[..|s| - 1];
      assert sep in s' by {
        var j :| 0 <= j < |s| && s[j] == sep;
        assert s'[j] == sep;
      }
      LastIndexIsLast(s', sep);
      assert s[LastIndex(s, sep) + 1..] == s'[LastIndex(s', sep) + 1..] + [s[|s| - 1]];
    }
  }

  /** `strings.Split(s, string(sep))`: the pieces between separators; at least one. */
  function Split(s: string, sep: char): (parts: seq<string>)
    ensures |parts| >= 1
    decreases |s|
  {
    if sep !in s then [s]
    else
      var i := LastIndex(s, sep);
      Split(s[..i], sep) + [s[i + 1..]]
  }

  /** Joining the parts of a split gives the string back. */
  lemma {:induction false} SplitJoinsBack(s: string, sep: char)
    ensures Join(Split(s, sep), sep) == s
    decreases |s|
  {
    if sep in s {
      var i := LastIndex(s, sep);
      var front := Split(s[..i], sep);
      var parts := front + [s[i + 1..]];
      assert Split(s, sep) == parts;
      SplitJoinsBack(s[..i], sep);
      assert parts[..|parts| - 1] == front;
      assert Join(parts, sep) == s[..i] + [sep] + s[i + 1..];
      assert s == s[..i] + [sep] + s[i + 1..];
    }
  }

  /** No part of a split holds the separator. */
  lemma {:induction false} SplitPartsFree(s: string, sep: char)
    ensures forall j :: 0 <= j < |Split(s, sep)| ==> sep !in Split(s, sep)[j]
    decreases |s|
  {
    if sep in s {
      var i := LastIndex(s, sep);
      var front := Split(s[..i], sep);
      assert Split(s, sep) == front + [s[i + 1..]];
      SplitPartsFree(s[..i], sep);
      LastIndexIsLast(s, sep);
    }
  }

  lemma {:induction false} LastIndexOfJoin(a: string, sep: char, b: string)
    requires sep !in b
    ensures sep in a + [sep] + b && LastIndex(a + [sep] + b, sep) == |a|
    decreases |b|
  {
    var s := a + [sep] + b;
    assert s[|a|] == sep;
    if b != [] {
      var b' := b[..|b| - 1];
      assert s[..|s| - 1] == a + [sep] + b';
      LastIndexOfJoin(a, sep, b');
    }
  }

  /** Splitting a join of separator-free parts gives the parts back. */
  lemma {:induction false} SplitJoin(parts: seq<string>, sep: char)
    requires |parts| >= 1
    requires forall i :: 0 <= i < |parts| ==> sep !in parts[i]
    ensures Split(Join(parts, sep), sep) == parts
    decreases |parts|
  {
    var n := |parts| - 1;
    if n == 0 {
      assert sep !in Join(parts, sep);
    } else {
      var init := parts[..n];
      var front := Join(init, sep);
      var s := Join(parts, sep);
      assert s == front + [sep] + parts[n];
      LastIndexOfJoin(front, sep, parts[n]);
      assert s[..|front|] == front;
      assert s[|front| + 1..] == parts[n];
      assert Split(s, sep) == Split(front, sep) + [parts[n]];
      SplitJoin(init, sep);
      assert parts == init + [parts[n]];
    }
  }

  /** A string holding `sep` splits into at least two parts, and is the join
      of all but the last part, the separator and the last part. */
  lemma SplitLast(s: string, sep: char)
    requires sep in s
    ensures |Split(s, sep)| >= 2
    ensures Join(Split(s, sep)[..|Split(s, sep)| - 1], sep) + [sep] + Split(s, sep)[|Split(s, sep)| - 1] == s
  {
    SplitJoinsBack(s, sep);
  }

  predicate HasSuffix(s: string, suffix: string)
  {
    |suffix| <= |s| && s[|s| - |suffix|..] == suffix
  }

  /** `strings.TrimSuffix`: `s` without `suffix` when it ends with it, else `s`. */
  function TrimSuffix(s: string, suffix: string): (r: string)
    ensures HasSuffix(s, suffix) ==> r + suffix == s
    ensures !HasSuffix(s, suffix) ==> r == s
  {
    if HasSuffix(s, suffix) then s[..|s| - |suffix|] else s
  }
}
