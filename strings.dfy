/**
 * The JavaScript string built-ins the serializer relies on: Array.prototype.join,
 * String.prototype.split with a one-character separator, indexOf, startsWith and
 * endsWith, each with the facts the rest of the model needs about it.
 */
module Strings {
  import opened Wrappers

  /** `parts.join(sep)`: the parts with `sep` between neighbours; `[].join(sep)` is "". */
  function Join(sep: string, parts: seq<string>): string
  {
    if parts == [] then ""
    else if |parts| == 1 then parts[0]
    else parts[0] + sep + Join(sep, parts[1..])
  }

  /** `s.split(sep)` for a one-character separator; `"".split(sep)` is `[""]`. */
  function Split(sep: char, s: string): (r: seq<string>)
    ensures |r| >= 1
  {
    if s == [] then [""]
    else
      var rest := Split(sep, s[1..]);
      if s[0] == sep then [""] + rest else [[s[0]] + rest[0]] + rest[1..]
  }

  /** `s.startsWith(t)`. */
  predicate StartsWith(s: string, t: string)
  {
    |t| <= |s| && s[..|t|] == t
  }

  /** `s.endsWith(t)`. */
  predicate EndsWith(s: string, t: string)
  {
    |t| <= |s| && s[|s| - |t|..] == t
  }

  /** Whether `t` occurs in `s` starting at position `q`. */
  predicate OccursAt(s: string, t: string, q: int)
  {
    0 <= q && q + |t| <= |s| && s[q..q + |t|] == t
  }

  /** `s.indexOf(t)`: the first position at which `t` occurs, or None for -1. */
  function IndexOf(s: string, t: string): (r: Option<nat>)
    ensures r.Some? ==> OccursAt(s, t, r.value)
    ensures r.Some? ==> forall q :: 0 <= q < r.value ==> !OccursAt(s, t, q)
    ensures r.None? ==> forall q :: 0 <= q ==> !OccursAt(s, t, q)
  {
    IndexFrom(s, t, 0)
  }

  function IndexFrom(s: string, t: string, i: nat): (r: Option<nat>)
    requires forall q :: 0 <= q < i ==> !OccursAt(s, t, q)
    ensures r.Some? ==> i <= r.value && OccursAt(s, t, r.value)
    ensures r.Some? ==> forall q :: 0 <= q < r.value ==> !OccursAt(s, t, q)
    ensures r.None? ==> forall q :: 0 <= q ==> !OccursAt(s, t, q)
    decreases |s| - i
  {
    if i + |t| > |s| then None
    else if s[i..i + |t|] == t then Some(i)
    else IndexFrom(s, t, i + 1)
  }

  lemma {:induction false} SplitWithoutSeparator(sep: char, p: string)
    requires sep !in p
    ensures Split(sep, p) == [p]
  {
    if p != [] {
      SplitWithoutSeparator(sep, p[1..]);
      assert [p[0]] + p[1..] == p;
    }
  }

  lemma {:induction false} SplitAtSeparator(sep: char, p: string, q: string)
    requires sep !in p
    ensures Split(sep, p + [sep] + q) == [p] + Split(sep, q)
  {
    if p == [] {
      assert p + [sep] + q == [sep] + q;
      assert ([sep] + q)[1..] == q;
    } else {
      assert (p + [sep] + q)[1..] == p[1..] + [sep] + q;
      SplitAtSeparator(sep, p[1..], q);
      assert [p[0]] + p[1..] == p;
    }
  }

  /** Splitting a join on its separator gives the parts back, when no part holds the separator. */
  lemma {:induction false} SplitJoin(sep: char, parts: seq<string>)
    requires |parts| >= 1
    requires forall i :: 0 <= i < |parts| ==> sep !in parts[i]
    ensures Split(sep, Join([sep], parts)) == parts
  {
    if |parts| == 1 {
      SplitWithoutSeparator(sep, parts[0]);
    } else {
      SplitJoin(sep, parts[1..]);
      SplitAtSeparator(sep, parts[0], Join([sep], parts[1..]));
      assert [parts[0]] + parts[1..] == parts;
    }
  }

  /** A character in neither the separator nor any part is not in the join. */
  lemma {:induction false} JoinExcludes(sep: string, parts: seq<string>, c: char)
    requires c !in sep
    requires forall i :: 0 <= i < |parts| ==> c !in parts[i]
    ensures c !in Join(sep, parts)
  {
    if |parts| > 1 {
      JoinExcludes(sep, parts[1..], c);
    }
  }

  /** The join begins with the first part. */
  lemma JoinStartsWithFirst(sep: string, parts: seq<string>)
    requires |parts| >= 1
    ensures StartsWith(Join(sep, parts), parts[0])
  {
    if |parts| > 1 {
      assert Join(sep, parts) == parts[0] + (sep + Join(sep, parts[1..]));
    }
  }
}
