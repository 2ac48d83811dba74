/**
 * createQuerySerializer: the query string built from a record of query
 * parameters, one fragment per key whose value is not undefined or null.
 * Arrays default to form/explode, objects to deepObject/explode, and
 * allowReserved is taken from the top-level option only.
 */
module QuerySerialization {
  import opened Wrappers
  import opened Strings
  import opened UriComponent
  import opened JsValues
  import opened QueryDecoding
  import opened Encoders
  import opened EncoderLaws

  /** The `array` or `object` member of the options: a style and an explode flag. */
  datatype StyleOptions = StyleOptions(style: Style, explode: bool)

  /** QuerySerializerOptions; an absent options argument is the record with every member absent. */
  datatype QueryOptions = QueryOptions(arrayOptions: Option<StyleOptions>, objectOptions: Option<StyleOptions>, allowReserved: Option<bool>)

  const NoOptions := QueryOptions(None, None, None)

  /** `options?.allowReserved || false`, then tested with `=== true` by the encoders. */
  function AllowReserved(options: QueryOptions): (r: bool)
    ensures r <==> options.allowReserved == Some(true)
  {
    options.allowReserved.GetOr(false)
  }

  /** `{style: 'form', explode: true, ...options?.array}` */
  function ArrayStyle(options: QueryOptions): (s: StyleOptions)
    ensures options.arrayOptions.None? ==> s == StyleOptions(Form, true)
    ensures options.arrayOptions.Some? ==> s == options.arrayOptions.value
  {
    options.arrayOptions.GetOr(StyleOptions(Form, true))
  }

  /** `{style: 'deepObject', explode: true, ...options?.object}` */
  function ObjectStyle(options: QueryOptions): (s: StyleOptions)
    ensures options.objectOptions.None? ==> s == StyleOptions(DeepObject, true)
    ensures options.objectOptions.Some? ==> s == options.objectOptions.value
  {
    options.objectOptions.GetOr(StyleOptions(DeepObject, true))
  }

  /** The fragment one present (not undefined, not null) query parameter contributes. */
  function QueryFragment(options: QueryOptions, name: string, value: Value): Result<string>
  {
    var ar := AllowReserved(options);
    if value.Arr? then ArrayParam(name, value, ArrayStyle(options).style, ArrayStyle(options).explode, ar)
    else if value.Obj? then ObjectParam(name, value, ObjectStyle(options).style, ObjectStyle(options).explode, ar)
    else SerializePrimitiveParam(name, value, ar)
  }

  /** What the for...in loop has pushed into `search` after visiting `fields`, or the error it stopped with. */
  function SearchFragments(options: QueryOptions, fields: Fields): Result<seq<string>>
    decreases |fields|
  {
    if fields == [] then Success([])
    else
      var n := |fields| - 1;
      var init :- SearchFragments(options, fields[..n]);
      if fields[n].1.IsNullish() then Success(init)
      else
        var last :- QueryFragment(options, fields[n].0, fields[n].1);
        Success(init + [last])
  }

  /** The query string `createQuerySerializer(options)(queryParams)` returns; "" unless the input is an object. */
  function QueryString(options: QueryOptions, queryParams: Value): Result<string>
  {
    match Enumerate(queryParams)
    case None => Success("")
    case Some(fields) =>
      var search :- SearchFragments(options, fields);
      Success(Join("&", search))
  }

  /** The serializer function `createQuerySerializer(options)` returns, applied to `queryParams`. */
  method SerializeQuery(options: QueryOptions, queryParams: Value) returns (r: Result<string>)
    ensures r == QueryString(options, queryParams)
  {
    var search: seq<string> := [];
    var enumerated := Enumerate(queryParams);
    if enumerated.Some? {
      var fields := enumerated.value;
      var k := 0;
      while k < |fields|
        invariant 0 <= k <= |fields|
        invariant SearchFragments(options, fields[..k]) == Success(search)
      {
        var name := fields[k].0;
        var value := fields[k].1;
        SearchFragmentsStep(options, fields, k, search);
        if !value.IsNullish() {
          var fragment := SerializeQueryParam(options, name, value);
          if fragment.Failure? {
            SearchFragmentsFailFromPrefix(options, fields, k + 1);
            return Failure(fragment.error);
          }
          search := search + [fragment.value];
        }
        k := k + 1;
      }
      assert fields[..k] == fields;
    }
    r := Success(Join("&", search));
  }

  /** One more step of the for...in loop: a nullish value is skipped, any other adds its fragment or stops the loop. */
  lemma SearchFragmentsStep(options: QueryOptions, fields: Fields, k: nat, search: seq<string>)
    requires k < |fields|
    requires SearchFragments(options, fields[..k]) == Success(search)
    ensures fields[k].1.IsNullish() ==> SearchFragments(options, fields[..k + 1]) == Success(search)
    ensures !fields[k].1.IsNullish() ==>
              SearchFragments(options, fields[..k + 1]) ==
              (match QueryFragment(options, fields[k].0, fields[k].1)
               case Success(fragment) => Success(search + [fragment])
               case Failure(e) => Failure(e))
  {
    assert fields[..k + 1][..k] == fields[..k];
  }

  /** The body of the for...in loop for one present parameter: dispatch on arrays, objects and scalars. */
  method SerializeQueryParam(options: QueryOptions, name: string, value: Value) returns (fragment: Result<string>)
    ensures fragment == QueryFragment(options, name, value)
  {
    var ar := AllowReserved(options);
    if value.Arr? {
      fragment := SerializeArrayParam(name, value, ArrayStyle(options).style, ArrayStyle(options).explode, ar);
    } else if value.Obj? {
      fragment := SerializeObjectParam(name, value, ObjectStyle(options).style, ObjectStyle(options).explode, ar);
    } else {
      fragment := SerializePrimitiveParam(name, value, ar);
    }
  }

  lemma {:induction false} SearchFragmentsFailFromPrefix(options: QueryOptions, fields: Fields, k: nat)
    requires k <= |fields|
    requires SearchFragments(options, fields[..k]).Failure?
    ensures SearchFragments(options, fields).Failure?
    decreases |fields| - k
  {
    if k < |fields| {
      assert fields[..k + 1][..k] == fields[..k];
      SearchFragmentsFailFromPrefix(options, fields, k + 1);
    } else {
      assert fields[..k] == fields;
    }
  }

  // ----- What the serializer promises -----

  /** The parameters that contribute a fragment, in key order. */
  function Present(fields: Fields): (r: Fields)
    ensures |r| <= |fields|
    ensures forall i :: 0 <= i < |r| ==> !r[i].1.IsNullish()
    decreases |fields|
  {
    if fields == [] then []
    else
      var n := |fields| - 1;
      if fields[n].1.IsNullish() then Present(fields[..n]) else Present(fields[..n]) + [fields[n]]
  }

  /**
   * The fragments are exactly one per present parameter, in key order, each the
   * one that parameter contributes; the serializer fails exactly when one of those fails.
   */
  lemma {:induction false} SearchFragmentsArePerParameter(options: QueryOptions, fields: Fields)
    ensures SearchFragments(options, fields).Failure?
            <==> exists i :: 0 <= i < |Present(fields)| && QueryFragment(options, Present(fields)[i].0, Present(fields)[i].1).Failure?
    ensures SearchFragments(options, fields).Success? ==>
              |SearchFragments(options, fields).value| == |Present(fields)|
              && forall i :: 0 <= i < |Present(fields)| ==>
                   Success(SearchFragments(options, fields).value[i]) == QueryFragment(options, Present(fields)[i].0, Present(fields)[i].1)
    decreases |fields|
  {
    if fields != [] {
      var n := |fields| - 1;
      var ps := Present(fields[..n]);
      SearchFragmentsArePerParameter(options, fields[..n]);
      if fields[n].1.IsNullish() {
        assert Present(fields) == ps;
        assert SearchFragments(options, fields) == SearchFragments(options, fields[..n]);
      } else {
        assert Present(fields) == ps + [fields[n]];
        var whole := Present(fields);
        var fails := exists i :: 0 <= i < |whole| && QueryFragment(options, whole[i].0, whole[i].1).Failure?;
        if exists i :: 0 <= i < |ps| && QueryFragment(options, ps[i].0, ps[i].1).Failure? {
          var i :| 0 <= i < |ps| && QueryFragment(options, ps[i].0, ps[i].1).Failure?;
          assert whole[i] == ps[i];
        }
        if QueryFragment(options, fields[n].0, fields[n].1).Failure? {
          assert whole[|ps|] == fields[n];
        }
        if fails {
          var i :| 0 <= i < |whole| && QueryFragment(options, whole[i].0, whole[i].1).Failure?;
          if i < |ps| {
            assert whole[i] == ps[i];
          } else {
            assert whole[i] == fields[n];
          }
        }
      }
    }
  }

  /** With allowReserved off, a record of scalars gives `name=encodeURIComponent(value)` per property, joined by `&`. */
  lemma ScalarQueryString(options: QueryOptions, pairs: seq<(string, string)>)
    requires options.allowReserved != Some(true)
    ensures QueryString(options, Obj(TextFields(pairs))) == Success(Join("&", EncodedPairs(pairs)))
  {
    var fields := TextFields(pairs);
    AllPresent(fields);
    SearchFragmentsArePerParameter(options, fields);
    var search := SearchFragments(options, fields).value;
    var encoded := EncodedPairs(pairs);
    assert |search| == |encoded|;
    forall i | 0 <= i < |pairs| ensures search[i] == encoded[i] {
      var p := Present(fields)[i];
      assert p == (pairs[i].0, Text(pairs[i].1));
      assert Success(search[i]) == QueryFragment(options, p.0, p.1);
      assert QueryFragment(options, p.0, p.1) == SerializePrimitiveParam(pairs[i].0, Text(pairs[i].1), false);
    }
    assert search == encoded;
  }

  /**
   * With allowReserved off, a record of scalars with plain names and no
   * undefined or null value reads back as its (name, value) pairs.
   */
  lemma ScalarQueryRoundTrip(options: QueryOptions, pairs: seq<(string, string)>)
    requires options.allowReserved != Some(true)
    requires |pairs| >= 1
    requires forall i :: 0 <= i < |pairs| ==> IsPlainName(pairs[i].0)
    ensures QueryString(options, Obj(TextFields(pairs))) == Success(Join("&", EncodedPairs(pairs)))
    ensures ParseQuery(QueryString(options, Obj(TextFields(pairs))).value) == Some(pairs)
  {
    ScalarQueryString(options, pairs);
    ParseQueryOfEncodedPairs(pairs);
  }

  lemma {:induction false} AllPresent(fields: Fields)
    requires forall i :: 0 <= i < |fields| ==> !fields[i].1.IsNullish()
    ensures Present(fields) == fields
    decreases |fields|
  {
    if fields != [] {
      var n := |fields| - 1;
      AllPresent(fields[..n]);
      assert fields[..n] + [fields[n]] == fields;
    }
  }

  /** Anything but an array or object gives the empty query. */
  lemma NonObjectQueryIsEmpty(options: QueryOptions, queryParams: Value)
    requires !queryParams.IsComposite()
    ensures QueryString(options, queryParams) == Success("")
  {
  }

  /** An empty array under the default options contributes the empty fragment, which the `&`-join keeps. */
  lemma EmptyFragmentIsKept()
    ensures QueryString(NoOptions, Obj([("a", Arr([])), ("b", Text("1"))])) == Success("&b=1")
  {
    var fields: Fields := [("a", Arr([])), ("b", Text("1"))];
    EmptyArray("a", Form, false);
    assert QueryFragment(NoOptions, "a", Arr([])) == Success("");
    assert fields[..1] == [("a", Arr([]))];
    assert fields[..1][..0] == [];
    assert fields[..1][0] == ("a", Arr([]));
    assert [] + [""] == [""];
    assert SearchFragments(NoOptions, fields[..1]) == Success([""]);
    EncodeUnreservedChar('1');
    assert Piece(Text("1"), false) == "1";
    assert "b" + "=" + "1" == "b=1";
    assert QueryFragment(NoOptions, "b", Text("1")) == Success("b=1");
    assert [""] + ["b=1"] == ["", "b=1"];
    assert fields[..|fields| - 1] == fields[..1];
    assert SearchFragments(NoOptions, fields) == Success(["", "b=1"]);
    Join2("&", "", "b=1");
    assert "" + "&" + "b=1" == "&b=1";
  }

  /** The query of `{limit: '10'}`, as the client tests expect: `limit=10`. */
  lemma LimitExample()
    ensures QueryString(NoOptions, Obj([("limit", Text("10"))])) == Success("limit=10")
  {
    var fields: Fields := [("limit", Text("10"))];
    assert fields[..0] == [];
    assert EncodeURIComponent("10") == "10" by {
      EncodeUnreservedChar('0');
      assert "10" == ['1'] + "0";
      assert "10"[1..] == "0";
    }
    assert Piece(Text("10"), false) == "10";
    assert "limit" + "=" + "10" == "limit=10";
    assert QueryFragment(NoOptions, "limit", Text("10")) == Success("limit=10");
    assert [] + ["limit=10"] == ["limit=10"];
    assert fields[..|fields| - 1] == [];
    assert SearchFragments(NoOptions, fields) == Success(["limit=10"]);
  }
}
