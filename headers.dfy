/**
 * mergeHeaders: a right-biased merge of header records. The accumulator
 * starts empty; each source that is present is copied into it key by key,
 * null and undefined values included.
 */
module HeaderMerge {
  import opened Wrappers
  import opened JsValues
  import opened Records

  /** A header record, or undefined. */
  type HeaderSource = Option<Fields>

  /** The accumulator `reduce` has built after visiting `sources`. */
  function Merged(sources: seq<HeaderSource>): Fields
    decreases |sources|
  {
    if sources == [] then []
    else
      var n := |sources| - 1;
      match sources[n]
      case None => Merged(sources[..n])
      case Some(headers) => Assign(Merged(sources[..n]), headers)
  }

  /** `mergeHeaders(...sources)`: a fresh record; the sources are values and are not changed. */
  method MergeHeaders(sources: seq<HeaderSource>) returns (acc: Fields)
    ensures acc == Merged(sources)
  {
    acc := [];
    var i := 0;
    while i < |sources|
      invariant 0 <= i <= |sources|
      invariant acc == Merged(sources[..i])
    {
      assert sources[..i + 1][..i] == sources[..i];
      if sources[i].Some? {
        var headers := sources[i].value;
        ghost var start := acc;
        var k := 0;
        while k < |headers|
          invariant 0 <= k <= |headers|
          invariant acc == Assign(start, headers[..k])
        {
          assert headers[..k + 1][..k] == headers[..k];
          acc := Put(acc, headers[k].0, headers[k].1);
          k := k + 1;
        }
        assert headers[..k] == headers;
      }
      i := i + 1;
    }
    assert sources[..i] == sources;
  }

  // ----- What the merge promises -----

  /** Whether some present source has the key. */
  predicate InSomeSource(sources: seq<HeaderSource>, key: string)
  {
    exists i :: 0 <= i < |sources| && sources[i].Some? && HasKey(sources[i].value, key)
  }

  /** The value of `key` in the last present source that has it; undefined if none has it. */
  function LastValue(sources: seq<HeaderSource>, key: string): Value
    decreases |sources|
  {
    if sources == [] then Undefined
    else
      var n := |sources| - 1;
      if sources[n].Some? && HasKey(sources[n].value, key) then Get(sources[n].value, key)
      else LastValue(sources[..n], key)
  }

  /**
   * The merged keys are the union of the sources' keys, and each takes its
   * value from the last source that has it, even when that value is null
   * or undefined.
   */
  lemma {:induction false} MergedLookup(sources: seq<HeaderSource>, key: string)
    ensures HasKey(Merged(sources), key) <==> InSomeSource(sources, key)
    ensures Get(Merged(sources), key) == LastValue(sources, key)
    decreases |sources|
  {
    if sources != [] {
      var n := |sources| - 1;
      var init := sources[..n];
      MergedLookup(init, key);
      if sources[n].Some? {
        GetAssign(Merged(init), sources[n].value, key);
      }
      if InSomeSource(init, key) {
        var i :| 0 <= i < n && init[i].Some? && HasKey(init[i].value, key);
        assert sources[i] == init[i];
      }
      if InSomeSource(sources, key) {
        var i :| 0 <= i < |sources| && sources[i].Some? && HasKey(sources[i].value, key);
        if i < n {
          assert init[i] == sources[i];
        }
      }
    }
  }

  /** Every key occurs once in the merged record. */
  lemma {:induction false} MergedKeysDistinct(sources: seq<HeaderSource>)
    ensures DistinctKeys(Merged(sources))
    decreases |sources|
  {
    if sources != [] {
      var n := |sources| - 1;
      MergedKeysDistinct(sources[..n]);
      if sources[n].Some? {
        AssignKeepsDistinct(Merged(sources[..n]), sources[n].value);
      }
    }
  }

  /** A key the earlier sources already produced keeps its position; new keys come after them. */
  lemma MergedKeepsKeyOrder(sources: seq<HeaderSource>, more: HeaderSource)
    ensures |Merged(sources)| <= |Merged(sources + [more])|
    ensures Keys(Merged(sources + [more]))[..|Merged(sources)|] == Keys(Merged(sources))
  {
    assert (sources + [more])[..|sources|] == sources;
    if more.Some? {
      AssignKeepsKeyOrder(Merged(sources), more.value);
    }
  }

  /** A later null overrides an earlier value: the merge does not drop nullish headers. */
  lemma NullOverrides(name: string, v: Value)
    ensures Get(Merged([Some([(name, v)]), Some([(name, Null)])]), name) == Null
    ensures HasKey(Merged([Some([(name, v)]), Some([(name, Null)])]), name)
  {
    var sources := [Some([(name, v)]), Some([(name, Null)])];
    MergedLookup(sources, name);
    assert HasKey(sources[1].value, name) by {
      assert sources[1].value[0].0 == name;
    }
  }
}
