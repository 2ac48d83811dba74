/**
 * The decoder a query string is read back with: split on `&`, split each
 * fragment at its first `=`, and percent-decode both halves. It is the
 * partner against which the encoders' round trips are stated.
 */
module QueryDecoding {
  import opened Wrappers
  import opened Strings
  import opened UriComponent

  /** A fragment's name and value text: the halves around the first `=`, or the whole fragment and "". */
  function SplitPair(f: string): (string, string)
  {
    if f == [] then ("", "")
    else if f[0] == '=' then ("", f[1..])
    else
      var rest := SplitPair(f[1..]);
      ([f[0]] + rest.0, rest.1)
  }

  function ParsePair(f: string): Option<(string, string)>
  {
    var halves := SplitPair(f);
    var name :- DecodeURIComponent(halves.0);
    var value :- DecodeURIComponent(halves.1);
    Some((name, value))
  }

  function ParseFragments(fs: seq<string>): Option<seq<(string, string)>>
  {
    if fs == [] then Some([])
    else
      var first :- ParsePair(fs[0]);
      var rest :- ParseFragments(fs[1..]);
      Some([first] + rest)
  }

  /** The (name, value) pairs of a query string. */
  function ParseQuery(q: string): Option<seq<(string, string)>>
  {
    ParseFragments(Split('&', q))
  }

  /** Text that reads back as itself in a name: no `&`, `=` or `%`. */
  predicate IsPlainName(n: string)
  {
    '&' !in n && '=' !in n && '%' !in n
  }

  lemma {:induction false} SplitPairAt(n: string, v: string)
    requires '=' !in n
    ensures SplitPair(n + "=" + v) == (n, v)
  {
    if n != [] {
      assert (n + "=" + v)[1..] == n[1..] + "=" + v;
      SplitPairAt(n[1..], v);
      assert [n[0]] + n[1..] == n;
    }
  }

  /** `name=encodeURIComponent(value)` reads back as (name, value). */
  lemma ParsePairOfEncoded(n: string, v: string)
    requires IsPlainName(n)
    ensures ParsePair(n + "=" + EncodeURIComponent(v)) == Some((n, v))
  {
    SplitPairAt(n, EncodeURIComponent(v));
    DecodeWithoutEscapes(n);
    DecodeEncode(v);
  }

  /** The fragments `n_i=encodeURIComponent(v_i)` of the pairs (n_i, v_i). */
  function EncodedPairs(pairs: seq<(string, string)>): (fs: seq<string>)
    ensures |fs| == |pairs|
    ensures forall i :: 0 <= i < |pairs| ==> fs[i] == pairs[i].0 + "=" + EncodeURIComponent(pairs[i].1)
  {
    seq(|pairs|, i requires 0 <= i < |pairs| => pairs[i].0 + "=" + EncodeURIComponent(pairs[i].1))
  }

  /** Encoded fragments `n_i=encodeURIComponent(v_i)` joined by `&` read back as the pairs (n_i, v_i). */
  lemma ParseQueryOfEncodedPairs(pairs: seq<(string, string)>)
    requires |pairs| >= 1
    requires forall i :: 0 <= i < |pairs| ==> IsPlainName(pairs[i].0)
    ensures ParseQuery(Join("&", EncodedPairs(pairs))) == Some(pairs)
  {
    var fs := EncodedPairs(pairs);
    forall i | 0 <= i < |fs| ensures '&' !in fs[i] {
      EncodedExcludes(pairs[i].1, '&');
    }
    SplitJoin('&', fs);
    ParseEncodedFragments(pairs, fs);
  }

  lemma {:induction false} ParseEncodedFragments(pairs: seq<(string, string)>, fs: seq<string>)
    requires |fs| == |pairs|
    requires forall i :: 0 <= i < |pairs| ==> IsPlainName(pairs[i].0)
    requires forall i :: 0 <= i < |pairs| ==> fs[i] == pairs[i].0 + "=" + EncodeURIComponent(pairs[i].1)
    ensures ParseFragments(fs) == Some(pairs)
  {
    if pairs != [] {
      ParsePairOfEncoded(pairs[0].0, pairs[0].1);
      ParseEncodedFragments(pairs[1..], fs[1..]);
      assert [pairs[0]] + pairs[1..] == pairs;
    }
  }
}
