/**
 * What the three encoders promise: when they fail, what one value
 * contributes, and how the query decoder reads their output back.
 */
module EncoderLaws {
  import opened Wrappers
  import opened Strings
  import opened UriComponent
  import opened JsValues
  import opened QueryDecoding
  import opened Encoders

  /** The scalars `ss` as parameter values. */
  function Texts(ss: seq<string>): (r: seq<Value>)
    ensures |r| == |ss|
    ensures forall i :: 0 <= i < |ss| ==> r[i] == Text(ss[i])
  {
    seq(|ss|, i requires 0 <= i < |ss| => Text(ss[i]))
  }

  /** An object whose properties are the scalar pairs `pairs`. */
  function TextFields(pairs: seq<(string, string)>): (r: Fields)
    ensures |r| == |pairs|
    ensures forall i :: 0 <= i < |pairs| ==> r[i] == (pairs[i].0, Text(pairs[i].1))
  {
    seq(|pairs|, i requires 0 <= i < |pairs| => (pairs[i].0, Text(pairs[i].1)))
  }

  /** A one-character unreserved text encodes as itself. */
  lemma EncodeUnreservedChar(c: char)
    requires IsUnreserved(c)
    ensures EncodeURIComponent([c]) == [c]
  {
    assert [c][1..] == [];
  }

  // ----- serializePrimitiveParam -----

  /** `name=encodeURIComponent(s)` reads back as the single pair (name, s). */
  lemma PrimitiveRoundTrip(name: string, s: string)
    requires IsPlainName(name)
    ensures SerializePrimitiveParam(name, Text(s), false).Success?
    ensures ParseQuery(SerializePrimitiveParam(name, Text(s), false).value) == Some([(name, s)])
  {
    var pairs := [(name, s)];
    ParseQueryOfEncodedPairs(pairs);
    assert EncodedPairs(pairs) == [name + "=" + EncodeURIComponent(s)];
  }

  // ----- serializeArrayParam -----

  /** The explode=true loop fails exactly when a style other than simple or label meets an array or object element. */
  lemma {:induction false} ExplodedEntriesFailure(name: string, items: seq<Value>, style: Style, allowReserved: bool)
    ensures ExplodedEntries(name, items, style, allowReserved).Failure?
            <==> style != Simple && style != Label && exists i :: 0 <= i < |items| && items[i].IsComposite()
    decreases |items|
  {
    if items != [] {
      var n := |items| - 1;
      ExplodedEntriesFailure(name, items[..n], style, allowReserved);
      assert ExplodedEntries(name, items, style, allowReserved).Failure?
             <==> ExplodedEntries(name, items[..n], style, allowReserved).Failure?
                  || ExplodedEntry(name, items[n], style, allowReserved).Failure?;
      SomeCompositeItemSnoc(items, items[..n]);
    }
  }

  /** Some element of `items` is an array or object exactly when one before the last is, or the last is. */
  lemma SomeCompositeItemSnoc(items: seq<Value>, init: seq<Value>)
    requires items != [] && init == items[..|items| - 1]
    ensures (exists i :: 0 <= i < |items| && items[i].IsComposite())
            <==> (exists i :: 0 <= i < |init| && init[i].IsComposite()) || items[|items| - 1].IsComposite()
  {
    var n := |items| - 1;
    if exists i :: 0 <= i < n && init[i].IsComposite() {
      var i :| 0 <= i < n && init[i].IsComposite();
      assert items[i] == init[i];
    }
    if exists i :: 0 <= i < |items| && items[i].IsComposite() {
      var i :| 0 <= i < |items| && items[i].IsComposite();
      if i < n {
        assert init[i] == items[i];
      }
    }
  }

  /** On success, entry i is what element i contributes. */
  lemma ExplodedEntriesAt(name: string, items: seq<Value>, style: Style, allowReserved: bool)
    requires ExplodedEntries(name, items, style, allowReserved).Success?
    ensures forall i :: 0 <= i < |items| ==>
              Success(ExplodedEntries(name, items, style, allowReserved).value[i]) == ExplodedEntry(name, items[i], style, allowReserved)
  {
    forall i | 0 <= i < |items|
      ensures Success(ExplodedEntries(name, items, style, allowReserved).value[i]) == ExplodedEntry(name, items[i], style, allowReserved)
    {
      ExplodedEntryAt(name, items, style, allowReserved, i);
    }
  }

  lemma {:induction false} ExplodedEntryAt(name: string, items: seq<Value>, style: Style, allowReserved: bool, i: nat)
    requires ExplodedEntries(name, items, style, allowReserved).Success?
    requires i < |items|
    ensures Success(ExplodedEntries(name, items, style, allowReserved).value[i]) == ExplodedEntry(name, items[i], style, allowReserved)
    decreases |items|
  {
    var n := |items| - 1;
    ExplodedEntriesLast(name, items, style, allowReserved);
    if i < n {
      ExplodedEntryAt(name, items[..n], style, allowReserved, i);
      assert items[..n][i] == items[i];
    }
  }

  /** A successful explode=true loop: the entries before the last element, then its entry. */
  lemma ExplodedEntriesLast(name: string, items: seq<Value>, style: Style, allowReserved: bool)
    requires items != [] && ExplodedEntries(name, items, style, allowReserved).Success?
    ensures var n := |items| - 1;
            var init := ExplodedEntries(name, items[..n], style, allowReserved);
            var last := ExplodedEntry(name, items[n], style, allowReserved);
            init.Success? && last.Success? && ExplodedEntries(name, items, style, allowReserved).value == init.value + [last.value]
  {
  }

  /** serializeArrayParam fails only in its explode=true branch, for a nested element under a style other than simple or label. */
  lemma ArrayParamFailsIffNested(name: string, value: Value, style: Style, explode: bool, allowReserved: bool)
    ensures ArrayParam(name, value, style, explode, allowReserved).Failure?
            <==> value.Arr? && explode && style != Simple && style != Label
                 && exists i :: 0 <= i < |value.items| && value.items[i].IsComposite()
  {
    if value.Arr? {
      ExplodedEntriesFailure(name, value.items, style, allowReserved);
    }
  }

  /** An empty array still yields the explode=false prefix (`id=` for form), and only the leading joiner when exploded. */
  lemma EmptyArray(name: string, style: Style, allowReserved: bool)
    ensures ArrayParam(name, Arr([]), style, false, allowReserved) == Success(ArrayPrefix(style, name))
    ensures ArrayParam(name, Arr([]), style, true, allowReserved)
            == Success(if style == Label then "." else if style == Matrix then ";" else "")
  {
    var none: seq<Value> := [];
    assert Pieces(none, allowReserved) == [];
    assert FlatArrayParam(name, none, style, allowReserved) == ArrayPrefix(style, name) + "";
    assert ExplodedEntries(name, none, style, allowReserved) == Success([]);
    assert ArrayPrefix(style, name) + "" == ArrayPrefix(style, name);
    assert JoinExploded(ExplodedArrayJoiner(style), style, []) == if style == Label then "." else if style == Matrix then ";" else "";
  }

  /** The explode=false values, split on the one-character joiner, give back each element's text. */
  lemma FlatArrayRoundTrip(name: string, items: seq<Value>, style: Style)
    requires style != SpaceDelimited
    requires |items| >= 1
    ensures |FlatArrayJoiner(style)| == 1
    ensures Split(FlatArrayJoiner(style)[0], FlatArrayParam(name, items, style, false)[|ArrayPrefix(style, name)|..])
            == Pieces(items, false)
    ensures forall i :: 0 <= i < |items| ==> DecodeURIComponent(Pieces(items, false)[i]) == Some(ToText(items[i]))
  {
    var c := FlatArrayJoiner(style)[0];
    var ps := Pieces(items, false);
    assert !IsEncodedChar(c);
    forall i | 0 <= i < |ps| ensures c !in ps[i] && DecodeURIComponent(ps[i]) == Some(ToText(items[i])) {
      EncodedExcludes(ToText(items[i]), c);
      DecodeEncode(ToText(items[i]));
    }
    SplitJoin(c, ps);
  }

  /** spaceDelimited cannot tell a value holding a space from two values: both give `id=a%20b`. */
  lemma SpaceDelimitedIsAmbiguous()
    ensures FlatArrayParam("id", [Text("a b")], SpaceDelimited, false)
            == FlatArrayParam("id", [Text("a"), Text("b")], SpaceDelimited, false)
            == "id=a%20b"
  {
    SpaceDelimitedPieces("a", " ", "b");
    Join2("%20", "a", "b");
    assert "a" + "%20" + "b" == "a%20b";
    assert "id=" + "a%20b" == "id=a%20b";
  }

  lemma SpaceDelimitedPieces(a: string, sp: string, b: string)
    requires a == "a" && sp == " " && b == "b"
    ensures Pieces([Text(a + sp + b)], false) == [a + "%20" + b]
    ensures Pieces([Text(a), Text(b)], false) == [a, b]
  {
    EncodeUnreservedChar('a');
    EncodeUnreservedChar('b');
    EncodeSpace();
    EncodeConcat(a, sp + b);
    EncodeConcat(sp, b);
    assert a == ['a'] && b == ['b'];
    assert EncodeURIComponent(a) == a && EncodeURIComponent(b) == b;
    assert a + sp + b == a + (sp + b);
    assert EncodeURIComponent(a + sp + b) == a + ("%20" + b);
    assert Piece(Text(a + sp + b), false) == a + "%20" + b;
  }

  /** For simple style, explode makes no difference. */
  lemma SimpleExplodeMatchesFlat(name: string, value: Value, allowReserved: bool)
    ensures ArrayParam(name, value, Simple, true, allowReserved) == ArrayParam(name, value, Simple, false, allowReserved)
  {
    if value.Arr? {
      ExplodedEntriesFailure(name, value.items, Simple, allowReserved);
      ExplodedEntriesAt(name, value.items, Simple, allowReserved);
      assert ExplodedEntries(name, value.items, Simple, allowReserved).value == Pieces(value.items, allowReserved);
      var joined := Join(",", Pieces(value.items, allowReserved));
      assert ArrayPrefix(Simple, name) + joined == joined;
    }
  }

  /** With a style other than simple or label, exploded scalars give one `name=encodeURIComponent(v)` entry each. */
  lemma ExplodedTextEntries(name: string, ss: seq<string>, style: Style)
    requires style != Simple && style != Label
    ensures ExplodedEntries(name, Texts(ss), style, false)
            == Success(EncodedPairs(seq(|ss|, i requires 0 <= i < |ss| => (name, ss[i]))))
  {
    var items := Texts(ss);
    var pairs := seq(|ss|, i requires 0 <= i < |ss| => (name, ss[i]));
    ExplodedEntriesFailure(name, items, style, false);
    ExplodedEntriesAt(name, items, style, false);
    assert ExplodedEntries(name, items, style, false).value == EncodedPairs(pairs);
  }

  /** form, spaceDelimited and pipeDelimited with explode give `name=v` once per element, which reads back element by element. */
  lemma ExplodedArrayRoundTrip(name: string, ss: seq<string>, style: Style)
    requires style == Form || style == SpaceDelimited || style == PipeDelimited
    requires IsPlainName(name)
    requires |ss| >= 1
    ensures ArrayParam(name, Arr(Texts(ss)), style, true, false).Success?
    ensures ParseQuery(ArrayParam(name, Arr(Texts(ss)), style, true, false).value)
            == Some(seq(|ss|, i requires 0 <= i < |ss| => (name, ss[i])))
  {
    ExplodedTextEntries(name, ss, style);
    ParseQueryOfEncodedPairs(seq(|ss|, i requires 0 <= i < |ss| => (name, ss[i])));
  }

  /** matrix with explode gives `;name=v` once per element. */
  lemma ExplodedMatrixShape(name: string, ss: seq<string>)
    ensures ArrayParam(name, Arr(Texts(ss)), Matrix, true, false)
            == Success(";" + Join(";", EncodedPairs(seq(|ss|, i requires 0 <= i < |ss| => (name, ss[i])))))
  {
    ExplodedTextEntries(name, ss, Matrix);
  }

  lemma Join2(sep: string, a: string, b: string)
    ensures Join(sep, [a, b]) == a + sep + b
  {
    assert [a, b][1..] == [b];
  }

  lemma Join4(sep: string, a: string, b: string, c: string, d: string)
    ensures Join(sep, [a, b, c, d]) == a + sep + b + sep + c + sep + d
  {
    assert [a, b, c, d][1..] == [b, c, d];
    Join3(sep, b, c, d);
    assert a + sep + (b + sep + c + sep + d) == a + sep + b + sep + c + sep + d;
  }

  lemma Join3(sep: string, a: string, b: string, c: string)
    ensures Join(sep, [a, b, c]) == a + sep + b + sep + c
  {
    assert [a, b, c][1..] == [b, c];
    Join2(sep, b, c);
    assert a + sep + (b + sep + c) == a + sep + b + sep + c;
  }

  lemma PiecesOfDigits()
    ensures Pieces(Texts(["3", "4", "5"]), false) == ["3", "4", "5"]
  {
    EncodeUnreservedChar('3');
    EncodeUnreservedChar('4');
    EncodeUnreservedChar('5');
  }

  /** The explode=false expansions the OpenAPI style table gives for `id = [3, 4, 5]`. */
  lemma FlatArrayExamples()
    ensures ArrayParam("id", Arr(Texts(["3", "4", "5"])), Form, false, false) == Success("id=3,4,5")
    ensures ArrayParam("id", Arr(Texts(["3", "4", "5"])), PipeDelimited, false, false) == Success("id=3|4|5")
    ensures ArrayParam("id", Arr(Texts(["3", "4", "5"])), Simple, false, false) == Success("3,4,5")
  {
    var items := Texts(["3", "4", "5"]);
    PiecesOfDigits();
    Join3(",", "3", "4", "5");
    Join3("|", "3", "4", "5");
    assert FlatArrayParam("id", items, Form, false) == "id=3,4,5";
    assert FlatArrayParam("id", items, PipeDelimited, false) == "id=3|4|5";
    assert FlatArrayParam("id", items, Simple, false) == "3,4,5";
  }

  lemma FragmentsOfDigits()
    ensures EncodedPairs(seq(3, i requires 0 <= i < 3 => ("id", ["3", "4", "5"][i]))) == ["id=3", "id=4", "id=5"]
  {
    EncodeUnreservedChar('3');
    EncodeUnreservedChar('4');
    EncodeUnreservedChar('5');
    var frags := EncodedPairs(seq(3, i requires 0 <= i < 3 => ("id", ["3", "4", "5"][i])));
    assert frags[0] == "id=3" && frags[1] == "id=4" && frags[2] == "id=5";
  }

  /** The explode=true expansions the OpenAPI style table gives for `id = [3, 4, 5]`. */
  lemma ExplodedArrayExamples()
    ensures ArrayParam("id", Arr(Texts(["3", "4", "5"])), Form, true, false) == Success("id=3&id=4&id=5")
    ensures ArrayParam("id", Arr(Texts(["3", "4", "5"])), Matrix, true, false) == Success(";id=3;id=4;id=5")
  {
    ExplodedFormExample("id", ["3", "4", "5"]);
    ExplodedMatrixExample("id", ["3", "4", "5"]);
  }

  lemma ExplodedFormExample(name: string, ss: seq<string>)
    requires name == "id" && ss == ["3", "4", "5"]
    ensures ArrayParam(name, Arr(Texts(ss)), Form, true, false) == Success("id=3&id=4&id=5")
  {
    ExplodedDigits(name, ss, Form);
    Join3("&", "id=3", "id=4", "id=5");
    assert "id=3" + "&" + "id=4" + "&" + "id=5" == "id=3&id=4&id=5";
  }

  lemma ExplodedMatrixExample(name: string, ss: seq<string>)
    requires name == "id" && ss == ["3", "4", "5"]
    ensures ArrayParam(name, Arr(Texts(ss)), Matrix, true, false) == Success(";id=3;id=4;id=5")
  {
    ExplodedDigits(name, ss, Matrix);
    Join3(";", "id=3", "id=4", "id=5");
    var joined := "id=3" + ";" + "id=4" + ";" + "id=5";
    assert joined == "id=3;id=4;id=5";
    assert ";" + joined == ";id=3;id=4;id=5";
  }

  lemma ExplodedDigits(name: string, ss: seq<string>, style: Style)
    requires name == "id" && ss == ["3", "4", "5"] && (style == Form || style == Matrix)
    ensures ExplodedEntries(name, Texts(ss), style, false) == Success(["id=3", "id=4", "id=5"])
  {
    FragmentsOfDigits();
    ExplodedTextEntries(name, ss, style);
  }

  /** The label expansion with explode for `id = [3, 4, 5]`. */
  lemma LabelArrayExample()
    ensures ArrayParam("id", Arr(Texts(["3", "4", "5"])), Label, true, false) == Success(".3.4.5")
  {
    var items := Texts(["3", "4", "5"]);
    PiecesOfDigits();
    ExplodedEntriesFailure("id", items, Label, false);
    ExplodedEntriesAt("id", items, Label, false);
    var labelled := ExplodedEntries("id", items, Label, false).value;
    assert labelled == Pieces(items, false);
    Join3(".", "3", "4", "5");
    assert JoinExploded(".", Label, ["3", "4", "5"]) == ".3.4.5";
  }

  // ----- serializeObjectParam -----

  /** The explode=false list alternates each key with its value's contribution. */
  lemma {:induction false} FlatFieldsAt(fields: Fields, allowReserved: bool)
    ensures forall i :: 0 <= i < |fields| ==> FlatFields(fields, allowReserved)[2 * i] == fields[i].0
    ensures forall i :: 0 <= i < |fields| ==> FlatFields(fields, allowReserved)[2 * i + 1] == Piece(fields[i].1, allowReserved)
    decreases |fields|
  {
    if fields != [] {
      var n := |fields| - 1;
      var init := FlatFields(fields[..n], allowReserved);
      var all := FlatFields(fields, allowReserved);
      assert all == init + [fields[n].0, Piece(fields[n].1, allowReserved)];
      FlatFieldsAt(fields[..n], allowReserved);
      forall i | 0 <= i < |fields|
        ensures all[2 * i] == fields[i].0 && all[2 * i + 1] == Piece(fields[i].1, allowReserved)
      {
        if i < n {
          assert fields[..n][i] == fields[i];
          assert all[2 * i] == init[2 * i] && all[2 * i + 1] == init[2 * i + 1];
        } else {
          assert 2 * i == |init|;
        }
      }
    }
  }

  /** The explode=true loop fails exactly when a property holds an array or object. */
  lemma {:induction false} ExplodedFieldsFailure(name: string, fields: Fields, style: Style, allowReserved: bool)
    ensures ExplodedFields(name, fields, style, allowReserved).Failure?
            <==> exists i :: 0 <= i < |fields| && fields[i].1.IsComposite()
    decreases |fields|
  {
    if fields != [] {
      var n := |fields| - 1;
      ExplodedFieldsFailure(name, fields[..n], style, allowReserved);
      assert ExplodedFields(name, fields, style, allowReserved).Failure?
             <==> ExplodedFields(name, fields[..n], style, allowReserved).Failure? || fields[n].1.IsComposite();
      SomeCompositeFieldSnoc(fields, fields[..n]);
    }
  }

  /** Some value of `fields` is an array or object exactly when one before the last is, or the last is. */
  lemma SomeCompositeFieldSnoc(fields: Fields, init: Fields)
    requires fields != [] && init == fields[..|fields| - 1]
    ensures (exists i :: 0 <= i < |fields| && fields[i].1.IsComposite())
            <==> (exists i :: 0 <= i < |init| && init[i].1.IsComposite()) || fields[|fields| - 1].1.IsComposite()
  {
    var n := |fields| - 1;
    if exists i :: 0 <= i < n && init[i].1.IsComposite() {
      var i :| 0 <= i < n && init[i].1.IsComposite();
      assert fields[i] == init[i];
    }
    if exists i :: 0 <= i < |fields| && fields[i].1.IsComposite() {
      var i :| 0 <= i < |fields| && fields[i].1.IsComposite();
      if i < n {
        assert init[i] == fields[i];
      }
    }
  }

  /** On success, fragment i is property i serialized under its field name. */
  lemma {:induction false} ExplodedFieldsAt(name: string, fields: Fields, style: Style, allowReserved: bool)
    requires ExplodedFields(name, fields, style, allowReserved).Success?
    ensures forall i :: 0 <= i < |fields| ==>
              Success(ExplodedFields(name, fields, style, allowReserved).value[i])
              == SerializePrimitiveParam(FieldName(style, name, fields[i].0), fields[i].1, allowReserved)
    decreases |fields|
  {
    if fields != [] {
      var n := |fields| - 1;
      var init := ExplodedFields(name, fields[..n], style, allowReserved);
      var last := SerializePrimitiveParam(FieldName(style, name, fields[n].0), fields[n].1, allowReserved);
      var all := ExplodedFields(name, fields, style, allowReserved).value;
      ExplodedFieldsLast(name, fields, style, allowReserved);
      ExplodedFieldsAt(name, fields[..n], style, allowReserved);
      forall i | 0 <= i < |fields|
        ensures Success(all[i]) == SerializePrimitiveParam(FieldName(style, name, fields[i].0), fields[i].1, allowReserved)
      {
        if i < n {
          assert fields[..n][i] == fields[i];
          assert all[i] == init.value[i];
        }
      }
    }
  }

  /** A successful explode=true loop: the fragments before the last property, then its fragment. */
  lemma ExplodedFieldsLast(name: string, fields: Fields, style: Style, allowReserved: bool)
    requires fields != [] && ExplodedFields(name, fields, style, allowReserved).Success?
    ensures var n := |fields| - 1;
            var init := ExplodedFields(name, fields[..n], style, allowReserved);
            var last := SerializePrimitiveParam(FieldName(style, name, fields[n].0), fields[n].1, allowReserved);
            init.Success? && last.Success? && ExplodedFields(name, fields, style, allowReserved).value == init.value + [last.value]
  {
  }

  /** serializeObjectParam fails only off its explode=false branch, for a property that holds an array or object. */
  lemma ObjectParamFailsIffNested(name: string, value: Value, style: Style, explode: bool, allowReserved: bool)
    ensures ObjectParam(name, value, style, explode, allowReserved).Failure?
            <==> value.IsComposite() && !IsFlatObject(style, explode)
                 && exists i :: 0 <= i < |Enumerate(value).value| && Enumerate(value).value[i].1.IsComposite()
  {
    if value.IsComposite() {
      ExplodedFieldsFailure(name, Enumerate(value).value, style, allowReserved);
    }
  }

  /** The pairs an explode=true object encoding spells: each property under its field name. */
  function NamedPairs(style: Style, name: string, pairs: seq<(string, string)>): (r: seq<(string, string)>)
    ensures |r| == |pairs|
    ensures forall i :: 0 <= i < |pairs| ==> r[i] == (FieldName(style, name, pairs[i].0), pairs[i].1)
  {
    seq(|pairs|, i requires 0 <= i < |pairs| => (FieldName(style, name, pairs[i].0), pairs[i].1))
  }

  /**
   * form and deepObject off the explode=false branch give one `field=v` per
   * property, `name[k]=v` for deepObject, which reads back pair by pair.
   */
  lemma ExplodedObjectRoundTrip(name: string, pairs: seq<(string, string)>, style: Style, explode: bool)
    requires style == DeepObject || (style == Form && explode)
    requires |pairs| >= 1
    requires forall i :: 0 <= i < |pairs| ==> IsPlainName(FieldName(style, name, pairs[i].0))
    ensures ObjectParam(name, Obj(TextFields(pairs)), style, explode, false).Success?
    ensures ParseQuery(ObjectParam(name, Obj(TextFields(pairs)), style, explode, false).value)
            == Some(NamedPairs(style, name, pairs))
  {
    ExplodedObjectFragments(name, pairs, style, explode);
    ParseQueryOfEncodedPairs(NamedPairs(style, name, pairs));
  }

  /** Off the explode=false branch, the fragments of scalar properties are their encoded named pairs. */
  lemma ExplodedObjectFragments(name: string, pairs: seq<(string, string)>, style: Style, explode: bool)
    requires !IsFlatObject(style, explode)
    ensures ObjectParam(name, Obj(TextFields(pairs)), style, explode, false)
            == Success(JoinExploded(ObjectJoiner(style), style, EncodedPairs(NamedPairs(style, name, pairs))))
  {
    var fields := TextFields(pairs);
    var named := NamedPairs(style, name, pairs);
    ExplodedFieldsFailure(name, fields, style, false);
    ExplodedFieldsAt(name, fields, style, false);
    var fragments := ExplodedFields(name, fields, style, false).value;
    var encoded := EncodedPairs(named);
    forall i | 0 <= i < |pairs| ensures fragments[i] == encoded[i] {
      assert fields[i] == (pairs[i].0, Text(pairs[i].1));
      assert Success(fragments[i]) == SerializePrimitiveParam(FieldName(style, name, pairs[i].0), Text(pairs[i].1), false);
    }
    assert fragments == encoded;
  }

  /**
   * form without explode gives `name=k1,v1,k2,v2,...`: split on `,`, the list
   * alternates the raw keys with the encoded values, when no key holds a comma.
   */
  lemma FlatObjectRoundTrip(name: string, pairs: seq<(string, string)>)
    requires |pairs| >= 1
    requires forall i :: 0 <= i < |pairs| ==> ',' !in pairs[i].0
    ensures ObjectParam(name, Obj(TextFields(pairs)), Form, false, false)
            == Success(name + "=" + Join(",", FlatFields(TextFields(pairs), false)))
    ensures Split(',', Join(",", FlatFields(TextFields(pairs), false))) == FlatFields(TextFields(pairs), false)
    ensures forall i :: 0 <= i < |pairs| ==> FlatFields(TextFields(pairs), false)[2 * i] == pairs[i].0
    ensures forall i :: 0 <= i < |pairs| ==> DecodeURIComponent(FlatFields(TextFields(pairs), false)[2 * i + 1]) == Some(pairs[i].1)
  {
    var fields := TextFields(pairs);
    var flat := FlatFields(fields, false);
    assert ObjectParam(name, Obj(fields), Form, false, false) == Success(FlatObjectPrefix(Form, name) + Join(",", flat));
    FlatFieldsAt(fields, false);
    forall j | 0 <= j < |flat| ensures ',' !in flat[j] {
      var i := j / 2;
      if j == 2 * i {
        assert flat[j] == pairs[i].0;
      } else {
        assert j == 2 * i + 1;
        assert flat[j] == EncodeURIComponent(pairs[i].1);
        EncodedExcludes(pairs[i].1, ',');
      }
    }
    SplitJoin(',', flat);
    forall i | 0 <= i < |pairs| ensures DecodeURIComponent(flat[2 * i + 1]) == Some(pairs[i].1) {
      assert flat[2 * i + 1] == EncodeURIComponent(pairs[i].1);
      DecodeEncode(pairs[i].1);
    }
  }

  /** The deepObject and label expansions the OpenAPI style table gives for `{a: 1, b: 2}`. */
  lemma ExplodedObjectExamples()
    ensures ObjectParam("obj", Obj(TextFields([("a", "1"), ("b", "2")])), DeepObject, true, false) == Success("obj[a]=1&obj[b]=2")
    ensures ObjectParam("obj", Obj(TextFields([("a", "1"), ("b", "2")])), Label, true, false) == Success(".a=1.b=2")
  {
    DigitFields("a", "1", "b", "2");
    DeepObjectExample("obj", "a", "1", "b", "2");
    LabelObjectExample("obj", "a", "1", "b", "2");
  }

  lemma DeepObjectExample(name: string, k1: string, v1: string, k2: string, v2: string)
    requires name == "obj" && k1 == "a" && v1 == "1" && k2 == "b" && v2 == "2"
    ensures ObjectParam(name, Obj([(k1, Text(v1)), (k2, Text(v2))]), DeepObject, true, false) == Success("obj[a]=1&obj[b]=2")
  {
    EncodeUnreservedChar('1');
    EncodeUnreservedChar('2');
    TwoFieldFragments(name, k1, v1, k2, v2, DeepObject);
    assert name + "[" + k1 + "]" + "=" + v1 == "obj[a]=1";
    assert name + "[" + k2 + "]" + "=" + v2 == "obj[b]=2";
    Join2("&", "obj[a]=1", "obj[b]=2");
    assert "obj[a]=1" + "&" + "obj[b]=2" == "obj[a]=1&obj[b]=2";
  }

  lemma LabelObjectExample(name: string, k1: string, v1: string, k2: string, v2: string)
    requires name == "obj" && k1 == "a" && v1 == "1" && k2 == "b" && v2 == "2"
    ensures ObjectParam(name, Obj([(k1, Text(v1)), (k2, Text(v2))]), Label, true, false) == Success(".a=1.b=2")
  {
    EncodeUnreservedChar('1');
    EncodeUnreservedChar('2');
    TwoFieldFragments(name, k1, v1, k2, v2, Label);
    assert k1 + "=" + v1 == "a=1" && k2 + "=" + v2 == "b=2";
    Join2(".", "a=1", "b=2");
    assert "." + ("a=1" + "." + "b=2") == ".a=1.b=2";
  }

  lemma DigitFields(k1: string, v1: string, k2: string, v2: string)
    ensures TextFields([(k1, v1), (k2, v2)]) == [(k1, Text(v1)), (k2, Text(v2))]
  {
  }

  /** The explode=true fragments of a two-property scalar object. */
  lemma TwoFieldFragments(name: string, k1: string, v1: string, k2: string, v2: string, style: Style)
    ensures ExplodedFields(name, [(k1, Text(v1)), (k2, Text(v2))], style, false)
            == Success([FieldName(style, name, k1) + "=" + EncodeURIComponent(v1),
                        FieldName(style, name, k2) + "=" + EncodeURIComponent(v2)])
  {
    var fields := [(k1, Text(v1)), (k2, Text(v2))];
    ExplodedFieldsFailure(name, fields, style, false);
    ExplodedFieldsAt(name, fields, style, false);
    var r := ExplodedFields(name, fields, style, false).value;
    assert Success(r[0]) == SerializePrimitiveParam(FieldName(style, name, k1), Text(v1), false);
    assert Success(r[1]) == SerializePrimitiveParam(FieldName(style, name, k2), Text(v2), false);
    assert |r| == 2;
    assert r == [r[0], r[1]];
  }

  /** The form expansion without explode for `{a: 1, b: 2}`: keys and values alternate after `obj=`. */
  lemma FlatObjectExample()
    ensures ObjectParam("obj", Obj(TextFields([("a", "1"), ("b", "2")])), Form, false, false)
            == Success("obj=a,1,b,2")
  {
    var fields := TextFields([("a", "1"), ("b", "2")]);
    assert fields[0] == ("a", Text("1")) && fields[1] == ("b", Text("2"));
    EncodeUnreservedChar('1');
    EncodeUnreservedChar('2');
    FlatFieldsAt(fields, false);
    var flat := FlatFields(fields, false);
    assert flat[0] == "a" && flat[1] == "1" && flat[2] == "b" && flat[3] == "2";
    assert flat == ["a", "1", "b", "2"];
    Join4(",", "a", "1", "b", "2");
    assert FlatObjectPrefix(Form, "obj") + Join(",", flat) == "obj=a,1,b,2";
  }
}
