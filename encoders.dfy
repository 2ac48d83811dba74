/**
 * The primitive, array and object encoders of openapi-serializer.ts
 * (serializePrimitiveParam, serializeArrayParam, serializeObjectParam),
 * following the "Style Values" table of section 4.8.12.4 of the OpenAPI
 * Specification 3.1.0.
 *
 * The pure parts are functions. The explode branches, which push into a
 * `values` array in a loop, are methods proved equal to the specification
 * functions ArrayParam and ObjectParam; the properties of the encodings are
 * the lemmas at the end of the module.
 */
module Encoders {
  import opened Wrappers
  import opened Strings
  import opened UriComponent
  import opened JsValues
  import opened QueryDecoding

  /** The parameter styles. Both encoders accept every style; one an encoder's table lacks falls back to its default. */
  datatype Style = Simple | Label | Matrix | Form | SpaceDelimited | PipeDelimited | DeepObject

  /** What one value contributes to a join: `allowReserved === true ? v : encodeURIComponent(v)`. */
  function Piece(v: Value, allowReserved: bool): string
  {
    if allowReserved then JoinText(v) else EncodeURIComponent(ToText(v))
  }

  function Pieces(items: seq<Value>, allowReserved: bool): (r: seq<string>)
    ensures |r| == |items|
    ensures forall i :: 0 <= i < |items| ==> r[i] == Piece(items[i], allowReserved)
  {
    seq(|items|, i requires 0 <= i < |items| => Piece(items[i], allowReserved))
  }

  // ----- serializePrimitiveParam -----

  /**
   * `name=value`, the value percent-encoded unless allowReserved; "" for undefined
   * or null; the "Deeply-nested arrays/objects" error for an array or object.
   */
  function SerializePrimitiveParam(name: string, value: Value, allowReserved: bool): (r: Result<string>)
    ensures r.Failure? <==> value.IsComposite()
    ensures value.IsNullish() ==> r == Success("")
    ensures value.Text? ==> r.Success? && StartsWith(r.value, name + "=")
    ensures value.Text? && allowReserved ==> r.value[|name| + 1..] == value.s
  {
    if value.IsNullish() then Success("")
    else if value.IsComposite() then Failure(NestedValueUnsupported)
    else Success(name + "=" + Piece(value, allowReserved))
  }

  /** The encoded value after `name=` decodes back to the text. */
  lemma PrimitiveValueDecodes(name: string, s: string)
    ensures DecodeURIComponent(SerializePrimitiveParam(name, Text(s), false).value[|name| + 1..]) == Some(s)
  {
    DecodeEncode(s);
  }

  // ----- serializeArrayParam -----

  /** The joiner table of the explode=false branch; a style it lacks falls back to ",". */
  function FlatArrayJoiner(style: Style): string
  {
    match style
    case Form => ","
    case SpaceDelimited => "%20"
    case PipeDelimited => "|"
    case Simple => ","
    case Label => ","
    case Matrix => ","
    case DeepObject => ","
  }

  /** The prefix the explode=false switch puts before the joined values. */
  function ArrayPrefix(style: Style, name: string): string
  {
    match style
    case Simple => ""
    case Label => "."
    case Matrix => ";" + name + "="
    case _ => name + "="
  }

  /** The explode=false branch. */
  function FlatArrayParam(name: string, items: seq<Value>, style: Style, allowReserved: bool): string
  {
    ArrayPrefix(style, name) + Join(FlatArrayJoiner(style), Pieces(items, allowReserved))
  }

  /** The joiner table of the explode=true branch; a style it lacks falls back to "&". */
  function ExplodedArrayJoiner(style: Style): string
  {
    match style
    case Form => "&"
    case SpaceDelimited => "&"
    case PipeDelimited => "&"
    case Simple => ","
    case Label => "."
    case Matrix => ";"
    case DeepObject => "&"
  }

  /** What the explode=true loop pushes for one element. */
  function ExplodedEntry(name: string, v: Value, style: Style, allowReserved: bool): Result<string>
  {
    if style == Simple || style == Label then Success(Piece(v, allowReserved))
    else SerializePrimitiveParam(name, v, allowReserved)
  }

  /** What the explode=true loop has pushed after visiting `items`, or the error it stopped with. */
  function ExplodedEntries(name: string, items: seq<Value>, style: Style, allowReserved: bool): (r: Result<seq<string>>)
    ensures r.Success? ==> |r.value| == |items|
    decreases |items|
  {
    if items == [] then Success([])
    else
      var n := |items| - 1;
      var init :- ExplodedEntries(name, items[..n], style, allowReserved);
      var last :- ExplodedEntry(name, items[n], style, allowReserved);
      Success(init + [last])
  }

  /** Joins the explode=true entries; label and matrix also put the joiner in front. */
  function JoinExploded(joiner: string, style: Style, entries: seq<string>): string
  {
    if style == Label || style == Matrix then joiner + Join(joiner, entries) else Join(joiner, entries)
  }

  /** serializeArrayParam: "" for a value that is not an array. */
  function ArrayParam(name: string, value: Value, style: Style, explode: bool, allowReserved: bool): Result<string>
  {
    if !value.Arr? then Success("")
    else if !explode then Success(FlatArrayParam(name, value.items, style, allowReserved))
    else
      var entries :- ExplodedEntries(name, value.items, style, allowReserved);
      Success(JoinExploded(ExplodedArrayJoiner(style), style, entries))
  }

  method SerializeArrayParam(name: string, value: Value, style: Style, explode: bool, allowReserved: bool)
    returns (r: Result<string>)
    ensures r == ArrayParam(name, value, style, explode, allowReserved)
  {
    if !value.Arr? {
      return Success("");
    }
    if !explode {
      return Success(FlatArrayParam(name, value.items, style, allowReserved));
    }
    var values :- ExplodeItems(name, value.items, style, allowReserved);
    r := Success(JoinExploded(ExplodedArrayJoiner(style), style, values));
  }

  /** The explode=true loop: pushes each element's piece (simple, label) or primitive fragment. */
  method ExplodeItems(name: string, items: seq<Value>, style: Style, allowReserved: bool) returns (r: Result<seq<string>>)
    ensures r == ExplodedEntries(name, items, style, allowReserved)
  {
    var values: seq<string> := [];
    var k := 0;
    while k < |items|
      invariant 0 <= k <= |items|
      invariant ExplodedEntries(name, items[..k], style, allowReserved) == Success(values)
    {
      var v := items[k];
      var entry: string;
      ExplodedEntriesStep(name, items, k, style, allowReserved, values);
      if style == Simple || style == Label {
        entry := Piece(v, allowReserved);
      } else {
        var fragment := SerializePrimitiveParam(name, v, allowReserved);
        if fragment.Failure? {
          ExplodedEntriesFailFromPrefix(name, items, k + 1, style, allowReserved);
          return Failure(fragment.error);
        }
        entry := fragment.value;
      }
      values := values + [entry];
      k := k + 1;
    }
    assert items[..k] == items;
    r := Success(values);
  }

  /** One more step of the explode=true loop: the element's entry is pushed, or the loop stops with its error. */
  lemma ExplodedEntriesStep(name: string, items: seq<Value>, k: nat, style: Style, allowReserved: bool, values: seq<string>)
    requires k < |items|
    requires ExplodedEntries(name, items[..k], style, allowReserved) == Success(values)
    ensures ExplodedEntries(name, items[..k + 1], style, allowReserved) ==
            (match ExplodedEntry(name, items[k], style, allowReserved)
             case Success(entry) => Success(values + [entry])
             case Failure(e) => Failure(e))
  {
    assert items[..k + 1][..k] == items[..k];
  }

  // ----- serializeObjectParam -----

  /** The joiner table of serializeObjectParam; a style it lacks falls back to "&". */
  function ObjectJoiner(style: Style): string
  {
    match style
    case Simple => ","
    case Label => "."
    case Matrix => ";"
    case Form => "&"
    case DeepObject => "&"
    case SpaceDelimited => "&"
    case PipeDelimited => "&"
  }

  /** The prefix the explode=false switch puts before the flattened fields. */
  function FlatObjectPrefix(style: Style, name: string): string
  {
    match style
    case Form => name + "="
    case Label => "."
    case Matrix => ";" + name + "="
    case _ => ""
  }

  /** The list `k1, v1, k2, v2, ...` the explode=false loop builds. */
  function FlatFields(fields: Fields, allowReserved: bool): (r: seq<string>)
    ensures |r| == 2 * |fields|
    decreases |fields|
  {
    if fields == [] then []
    else
      var n := |fields| - 1;
      FlatFields(fields[..n], allowReserved) + [fields[n].0, Piece(fields[n].1, allowReserved)]
  }

  /** The field name each explode=true fragment uses: `name[k]` for deepObject, `k` otherwise. */
  function FieldName(style: Style, name: string, k: string): string
  {
    if style == DeepObject then name + "[" + k + "]" else k
  }

  /** What the explode=true loop has pushed after visiting `fields`, or the error it stopped with. */
  function ExplodedFields(name: string, fields: Fields, style: Style, allowReserved: bool): (r: Result<seq<string>>)
    ensures r.Success? ==> |r.value| == |fields|
    decreases |fields|
  {
    if fields == [] then Success([])
    else
      var n := |fields| - 1;
      var init :- ExplodedFields(name, fields[..n], style, allowReserved);
      var last :- SerializePrimitiveParam(FieldName(style, name, fields[n].0), fields[n].1, allowReserved);
      Success(init + [last])
  }

  /** Whether serializeObjectParam takes its explode=false branch. */
  predicate IsFlatObject(style: Style, explode: bool)
  {
    style != DeepObject && !explode
  }

  /** serializeObjectParam: "" for a value that is not an object. */
  function ObjectParam(name: string, value: Value, style: Style, explode: bool, allowReserved: bool): Result<string>
  {
    match Enumerate(value)
    case None => Success("")
    case Some(fields) =>
      if IsFlatObject(style, explode) then
        Success(FlatObjectPrefix(style, name) + Join(",", FlatFields(fields, allowReserved)))
      else
        var entries :- ExplodedFields(name, fields, style, allowReserved);
        Success(JoinExploded(ObjectJoiner(style), style, entries))
  }

  method SerializeObjectParam(name: string, value: Value, style: Style, explode: bool, allowReserved: bool)
    returns (r: Result<string>)
    ensures r == ObjectParam(name, value, style, explode, allowReserved)
  {
    var enumerated := Enumerate(value);
    if enumerated.None? {
      return Success("");
    }
    var fields := enumerated.value;
    if IsFlatObject(style, explode) {
      var values := FlattenFields(fields, allowReserved);
      return Success(FlatObjectPrefix(style, name) + Join(",", values));
    }
    var values :- ExplodeFields(name, fields, style, allowReserved);
    r := Success(JoinExploded(ObjectJoiner(style), style, values));
  }

  /** The explode=false loop: pushes each key and its (encoded) value. */
  method FlattenFields(fields: Fields, allowReserved: bool) returns (values: seq<string>)
    ensures values == FlatFields(fields, allowReserved)
  {
    values := [];
    var k := 0;
    while k < |fields|
      invariant 0 <= k <= |fields|
      invariant values == FlatFields(fields[..k], allowReserved)
    {
      assert fields[..k + 1][..k] == fields[..k];
      values := values + [fields[k].0, Piece(fields[k].1, allowReserved)];
      k := k + 1;
    }
    assert fields[..k] == fields;
  }

  /** The explode=true loop: pushes one primitive fragment per key. */
  method ExplodeFields(name: string, fields: Fields, style: Style, allowReserved: bool) returns (r: Result<seq<string>>)
    ensures r == ExplodedFields(name, fields, style, allowReserved)
  {
    var values: seq<string> := [];
    var k := 0;
    while k < |fields|
      invariant 0 <= k <= |fields|
      invariant ExplodedFields(name, fields[..k], style, allowReserved) == Success(values)
    {
      var finalName := FieldName(style, name, fields[k].0);
      var fragment := SerializePrimitiveParam(finalName, fields[k].1, allowReserved);
      ExplodedFieldsStep(name, fields, k, style, allowReserved, values);
      if fragment.Failure? {
        ExplodedFieldsFailFromPrefix(name, fields, k + 1, style, allowReserved);
        return Failure(fragment.error);
      }
      values := values + [fragment.value];
      k := k + 1;
    }
    assert fields[..k] == fields;
    r := Success(values);
  }

  /** One more step of the explode=true object loop: the property's fragment is pushed, or the loop stops with its error. */
  lemma ExplodedFieldsStep(name: string, fields: Fields, k: nat, style: Style, allowReserved: bool, values: seq<string>)
    requires k < |fields|
    requires ExplodedFields(name, fields[..k], style, allowReserved) == Success(values)
    ensures ExplodedFields(name, fields[..k + 1], style, allowReserved) ==
            (match SerializePrimitiveParam(FieldName(style, name, fields[k].0), fields[k].1, allowReserved)
             case Success(fragment) => Success(values + [fragment])
             case Failure(e) => Failure(e))
  {
    assert fields[..k + 1][..k] == fields[..k];
  }

  // ----- What the explode loops compute -----

  /** Once a prefix fails, the whole explode=true loop fails. */
  lemma {:induction false} ExplodedEntriesFailFromPrefix(name: string, items: seq<Value>, k: nat, style: Style, allowReserved: bool)
    requires k <= |items|
    requires ExplodedEntries(name, items[..k], style, allowReserved).Failure?
    ensures ExplodedEntries(name, items, style, allowReserved).Failure?
    decreases |items| - k
  {
    if k < |items| {
      assert items[..k + 1][..k] == items[..k];
      assert ExplodedEntries(name, items[..k + 1], style, allowReserved).Failure?;
      ExplodedEntriesFailFromPrefix(name, items, k + 1, style, allowReserved);
    } else {
      assert items[..k] == items;
    }
  }

  lemma {:induction false} ExplodedFieldsFailFromPrefix(name: string, fields: Fields, k: nat, style: Style, allowReserved: bool)
    requires k <= |fields|
    requires ExplodedFields(name, fields[..k], style, allowReserved).Failure?
    ensures ExplodedFields(name, fields, style, allowReserved).Failure?
    decreases |fields| - k
  {
    if k < |fields| {
      assert fields[..k + 1][..k] == fields[..k];
      assert ExplodedFields(name, fields[..k + 1], style, allowReserved).Failure?;
      ExplodedFieldsFailFromPrefix(name, fields, k + 1, style, allowReserved);
    } else {
      assert fields[..k] == fields;
    }
  }
}
