/**
 * The JavaScript values that reach the serializer, and the two JavaScript
 * conversions it relies on: String(v) and for...in enumeration.
 *
 * Numbers and booleans are represented by their string form (`Text`), so the
 * model does not say how a number is printed.
 */
module JsValues {
  import opened Wrappers
  import Strings

  /** A parameter value: undefined, null, a scalar, an array or a plain object. */
  datatype Value =
    | Undefined
    | Null
    | Text(s: string)
    | Arr(items: seq<Value>)
    | Obj(fields: Fields)
  {
    /** `v === undefined || v === null` */
    predicate IsNullish() { Undefined? || Null? }

    /** `typeof v === 'object'` for a value that is not null. */
    predicate IsComposite() { Arr? || Obj? }
  }

  /** An object's own enumerable properties, in for...in order. */
  type Fields = seq<(string, Value)>

  /** String(v). An array converts as `v.join(',')`, where undefined and null elements become "". */
  function ToText(v: Value): string
    decreases v
  {
    match v
    case Undefined => "undefined"
    case Null => "null"
    case Text(s) => s
    case Arr(items) => JoinItems(",", items)
    case Obj(_) => "[object Object]"
  }

  /** `items.join(sep)` on an array of values. */
  function JoinItems(sep: string, items: seq<Value>): string
    decreases items
  {
    if items == [] then ""
    else
      var first := if items[0].IsNullish() then "" else ToText(items[0]);
      if |items| == 1 then first else first + sep + JoinItems(sep, items[1..])
  }

  /** The text Array.prototype.join puts in place of one element. */
  function JoinText(v: Value): string
  {
    if v.IsNullish() then "" else ToText(v)
  }

  /** JoinItems is Strings.Join over the elements' JoinText. */
  lemma {:induction false} JoinItemsIsJoin(sep: string, items: seq<Value>)
    ensures JoinItems(sep, items) == Strings.Join(sep, seq(|items|, i requires 0 <= i < |items| => JoinText(items[i])))
  {
    if |items| > 1 {
      JoinItemsIsJoin(sep, items[1..]);
      assert seq(|items| - 1, i requires 0 <= i < |items| - 1 => JoinText(items[1..][i]))
          == seq(|items|, i requires 0 <= i < |items| => JoinText(items[i]))[1..];
    }
  }

  /** The decimal digits of a natural number, as an array index key is spelled. */
  function NatToString(n: nat): (r: string)
    ensures |r| >= 1
    ensures forall i :: 0 <= i < |r| ==> '0' <= r[i] <= '9'
  {
    if n < 10 then ["0123456789"[n]] else NatToString(n / 10) + ["0123456789"[n % 10]]
  }

  /**
   * The (key, value) pairs `for (const k in v)` visits: an object's fields, an
   * array's indices "0", "1", ...; None for anything that is not an object.
   */
  function Enumerate(v: Value): (r: Option<Fields>)
    ensures r.Some? <==> v.IsComposite()
    ensures v.Obj? ==> r == Some(v.fields)
    ensures v.Arr? ==> r.Some? && |r.value| == |v.items|
    ensures v.Arr? ==> forall i :: 0 <= i < |v.items| ==> r.value[i] == (NatToString(i), v.items[i])
  {
    match v
    case Obj(fields) => Some(fields)
    case Arr(items) => Some(seq(|items|, i requires 0 <= i < |items| => (NatToString(i), items[i])))
    case _ => None
  }
}

/**
 * Plain JavaScript objects used as records: property lookup, property
 * assignment and the for...in copy `for (k in src) acc[k] = src[k]`, which is
 * also what object spread `{...a, ...b}` does.
 */
module Records {
  import opened JsValues

  /** Whether the record has a property called `k`. */
  predicate HasKey(r: Fields, k: string)
  {
    exists i :: 0 <= i < |r| && r[i].0 == k
  }

  /** The keys, in order. */
  function Keys(r: Fields): (ks: seq<string>)
    ensures |ks| == |r|
    ensures forall i :: 0 <= i < |r| ==> ks[i] == r[i].0
  {
    if r == [] then [] else [r[0].0] + Keys(r[1..])
  }

  /** No key occurs twice, as in every JavaScript object. */
  predicate DistinctKeys(r: Fields)
  {
    forall i, j :: 0 <= i < j < |r| ==> r[i].0 != r[j].0
  }

  /** `r[k]`: the value of property `k`, undefined when there is none (the last entry wins). */
  function Get(r: Fields, k: string): (v: Value)
    ensures !HasKey(r, k) ==> v == Undefined
    ensures HasKey(r, k) ==> exists i :: 0 <= i < |r| && r[i] == (k, v)
  {
    if r == [] then Undefined
    else if r[|r| - 1].0 == k then r[|r| - 1].1
    else Get(r[..|r| - 1], k)
  }

  /** `r[k] = v`: an existing property keeps its place and takes the new value; a new one goes last. */
  function Put(r: Fields, k: string, v: Value): (r': Fields)
    ensures HasKey(r, k) ==> Keys(r') == Keys(r)
    ensures !HasKey(r, k) ==> Keys(r') == Keys(r) + [k]
  {
    if HasKey(r, k) then seq(|r|, i requires 0 <= i < |r| => if r[i].0 == k then (k, v) else r[i])
    else r + [(k, v)]
  }

  /** `for (const k in src) acc[k] = src[k]`, which is also `{...acc, ...src}`. */
  function Assign(acc: Fields, src: Fields): Fields
    decreases |src|
  {
    if src == [] then acc
    else
      var last := src[|src| - 1];
      Put(Assign(acc, src[..|src| - 1]), last.0, last.1)
  }

  lemma GetPut(r: Fields, k: string, v: Value, j: string)
    ensures Get(Put(r, k, v), j) == if j == k then v else Get(r, j)
  {
    var r' := Put(r, k, v);
    if HasKey(r, k) {
      GetPointwise(r, r', k, v, j);
    } else {
      assert r'[..|r'| - 1] == r;
    }
  }

  /** Lookup after overwriting every entry with key `k` in place. */
  lemma {:induction false} GetPointwise(r: Fields, r': Fields, k: string, v: Value, j: string)
    requires HasKey(r, k)
    requires |r'| == |r|
    requires forall i :: 0 <= i < |r| ==> r'[i] == if r[i].0 == k then (k, v) else r[i]
    ensures Get(r', j) == if j == k then v else Get(r, j)
  {
    var n := |r|;
    if r[n - 1].0 == k {
      if j != k {
        GetUnaffected(r[..n - 1], r'[..n - 1], k, j);
      }
    } else if j == k {
      assert r'[n - 1].0 != k;
      assert HasKey(r[..n - 1], k) by {
        var i :| 0 <= i < n && r[i].0 == k;
        assert r[..n - 1][i].0 == k;
      }
      GetPointwise(r[..n - 1], r'[..n - 1], k, v, j);
    } else if r[n - 1].0 == j {
    } else if HasKey(r[..n - 1], k) {
      GetPointwise(r[..n - 1], r'[..n - 1], k, v, j);
    } else {
      GetUnaffected(r[..n - 1], r'[..n - 1], k, j);
    }
  }

  lemma {:induction false} GetUnaffected(r: Fields, r': Fields, k: string, j: string)
    requires j != k
    requires |r'| == |r|
    requires forall i :: 0 <= i < |r| ==> r'[i] == r[i] || (r[i].0 == k && r'[i].0 == k)
    ensures Get(r', j) == Get(r, j)
  {
    if r != [] {
      GetUnaffected(r[..|r| - 1], r'[..|r'| - 1], k, j);
    }
  }

  lemma HasKeyIffInKeys(r: Fields, k: string)
    ensures HasKey(r, k) <==> k in Keys(r)
  {
    var ks := Keys(r);
    if k in ks {
      var i :| 0 <= i < |ks| && ks[i] == k;
      assert r[i].0 == k;
    }
  }

  lemma PutKeepsDistinct(r: Fields, k: string, v: Value)
    requires DistinctKeys(r)
    ensures DistinctKeys(Put(r, k, v))
  {
    var r' := Put(r, k, v);
    forall i, j | 0 <= i < j < |r'| ensures r'[i].0 != r'[j].0 {
      assert Keys(r')[i] == r'[i].0 && Keys(r')[j] == r'[j].0;
      if !HasKey(r, k) && j == |r| {
        assert r[i].0 != k;
      }
    }
  }

  lemma HasKeyPut(r: Fields, k: string, v: Value, j: string)
    ensures HasKey(Put(r, k, v), j) <==> HasKey(r, j) || j == k
  {
    HasKeyIffInKeys(r, j);
    HasKeyIffInKeys(Put(r, k, v), j);
    if !HasKey(r, k) {
      HasKeyIffInKeys(r, k);
    }
  }

  lemma HasKeySnoc(r: Fields, x: (string, Value), j: string)
    ensures HasKey(r + [x], j) <==> HasKey(r, j) || x.0 == j
  {
    if HasKey(r, j) {
      var i :| 0 <= i < |r| && r[i].0 == j;
      assert (r + [x])[i].0 == j;
    }
    if x.0 == j {
      assert (r + [x])[|r|].0 == j;
    }
    if HasKey(r + [x], j) && x.0 != j {
      var i :| 0 <= i < |r| + 1 && (r + [x])[i].0 == j;
      assert r[i].0 == j;
    }
  }

  /** After the copy, a key takes its value from `src` if `src` has it, and keeps its old value otherwise. */
  lemma {:induction false} GetAssign(acc: Fields, src: Fields, j: string)
    ensures Get(Assign(acc, src), j) == if HasKey(src, j) then Get(src, j) else Get(acc, j)
    ensures HasKey(Assign(acc, src), j) <==> HasKey(acc, j) || HasKey(src, j)
    decreases |src|
  {
    if src != [] {
      var init, last := src[..|src| - 1], src[|src| - 1];
      assert src == init + [last];
      GetAssign(acc, init, j);
      GetPut(Assign(acc, init), last.0, last.1, j);
      HasKeyPut(Assign(acc, init), last.0, last.1, j);
      HasKeySnoc(init, last, j);
    }
  }

  lemma {:induction false} AssignKeepsDistinct(acc: Fields, src: Fields)
    requires DistinctKeys(acc)
    ensures DistinctKeys(Assign(acc, src))
    decreases |src|
  {
    if src != [] {
      var last := src[|src| - 1];
      AssignKeepsDistinct(acc, src[..|src| - 1]);
      PutKeepsDistinct(Assign(acc, src[..|src| - 1]), last.0, last.1);
    }
  }

  /** The keys already present keep their order; new ones are appended after them. */
  lemma {:induction false} AssignKeepsKeyOrder(acc: Fields, src: Fields)
    ensures |Keys(acc)| <= |Keys(Assign(acc, src))|
    ensures Keys(Assign(acc, src))[..|acc|] == Keys(acc)
    decreases |src|
  {
    if src != [] {
      var last := src[|src| - 1];
      AssignKeepsKeyOrder(acc, src[..|src| - 1]);
    }
  }
}
