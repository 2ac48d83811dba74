/**
 * encodeURIComponent and decodeURIComponent as section 19.2.6 of ECMA-262
 * defines them (the Encode and Decode abstract operations with an empty
 * reserved set). A Dafny `char` is a Unicode scalar value, so every string
 * here is well-formed UTF-16 text and the URIError that encodeURIComponent
 * raises for a lone surrogate cannot arise.
 */
module UriComponent {
  import opened Wrappers

  type Byte = b: int | 0 <= b < 256

  /** The characters encodeURIComponent leaves alone: ASCII letters, digits and - _ . ! ~ * ' ( ) */
  predicate IsUnreserved(c: char)
  {
    || ('A' <= c <= 'Z') || ('a' <= c <= 'z') || ('0' <= c <= '9')
    || c == '-' || c == '_' || c == '.' || c == '!' || c == '~'
    || c == '*' || c == '\'' || c == '(' || c == ')'
  }

  /** Characters that can appear in the output of encodeURIComponent. */
  predicate IsEncodedChar(c: char)
  {
    IsUnreserved(c) || c == '%'
  }

  const HexDigits: string := "0123456789ABCDEF"

  /** The UTF-8 encoding of one code point (RFC 3629, section 3). */
  function Utf8(c: char): (bytes: seq<Byte>)
    ensures 1 <= |bytes| <= 4
    ensures (|bytes| == 1) == (c as int < 0x80)
  {
    var cp := c as int;
    if cp < 0x80 then [cp]
    else if cp < 0x800 then [0xC0 + cp / 64, 0x80 + cp % 64]
    else if cp < 0x10000 then [0xE0 + cp / 64 / 64, 0x80 + cp / 64 % 64, 0x80 + cp % 64]
    else [0xF0 + cp / 64 / 64 / 64, 0x80 + cp / 64 / 64 % 64, 0x80 + cp / 64 % 64, 0x80 + cp % 64]
  }

  /** `%XX` with upper-case hexadecimal digits. */
  function Escape(b: Byte): (r: string)
    ensures |r| == 3 && r[0] == '%'
  {
    ['%', HexDigits[b / 16], HexDigits[b % 16]]
  }

  function EscapeAll(bs: seq<Byte>): (r: string)
    ensures |r| == 3 * |bs|
  {
    if bs == [] then [] else Escape(bs[0]) + EscapeAll(bs[1..])
  }

  function EncodeChar(c: char): (r: string)
    ensures IsUnreserved(c) ==> r == [c]
    ensures !IsUnreserved(c) ==> |r| >= 3 && r[0] == '%'
  {
    if IsUnreserved(c) then [c] else EscapeAll(Utf8(c))
  }

  /** encodeURIComponent(s): unreserved characters as they are, every other one as its UTF-8 bytes escaped. */
  function EncodeURIComponent(s: string): (r: string)
    ensures |r| >= |s|
  {
    if s == [] then [] else EncodeChar(s[0]) + EncodeURIComponent(s[1..])
  }

  function HexValue(c: char): Option<nat>
  {
    if '0' <= c <= '9' then Some(c as int - '0' as int)
    else if 'A' <= c <= 'F' then Some(c as int - 'A' as int + 10)
    else if 'a' <= c <= 'f' then Some(c as int - 'a' as int + 10)
    else None
  }

  /** The byte written as `%XX` at the start of `s`, if `s` starts with one. */
  function ParseEscape(s: string): (r: Option<Byte>)
  {
    if |s| < 3 || s[0] != '%' then None
    else
      var hi :- HexValue(s[1]);
      var lo :- HexValue(s[2]);
      if hi < 16 && lo < 16 then Some(hi * 16 + lo) else None
  }

  /** `n` consecutive escapes at the start of `s`. */
  function ParseEscapes(s: string, n: nat): (r: Option<seq<Byte>>)
    ensures r.Some? ==> |r.value| == n && 3 * n <= |s|
  {
    if n == 0 then Some([])
    else
      var b :- ParseEscape(s);
      var rest :- ParseEscapes(s[3..], n - 1);
      Some([b] + rest)
  }

  /** How many bytes a UTF-8 sequence with this lead byte has; None for a continuation or invalid byte. */
  function LeadLength(b: Byte): Option<nat>
  {
    if b < 0x80 then Some(1)
    else if 0xC0 <= b < 0xE0 then Some(2)
    else if 0xE0 <= b < 0xF0 then Some(3)
    else if 0xF0 <= b < 0xF8 then Some(4)
    else None
  }

  predicate IsContinuation(b: Byte)
  {
    0x80 <= b < 0xC0
  }

  /** The code point a complete UTF-8 sequence encodes; None for an overlong form, a surrogate or a value past U+10FFFF. */
  function Utf8Decode(bs: seq<Byte>): Option<char>
  {
    if |bs| == 1 then
      if bs[0] < 0x80 then Some(bs[0] as char) else None
    else if |bs| == 2 then
      if 0xC0 <= bs[0] < 0xE0 && IsContinuation(bs[1]) then
        var cp := (bs[0] as int - 0xC0) * 64 + (bs[1] as int - 0x80);
        if cp >= 0x80 then Some(cp as char) else None
      else None
    else if |bs| == 3 then
      if 0xE0 <= bs[0] < 0xF0 && IsContinuation(bs[1]) && IsContinuation(bs[2]) then
        var cp := (bs[0] as int - 0xE0) * 4096 + (bs[1] as int - 0x80) * 64 + (bs[2] as int - 0x80);
        if cp >= 0x800 && !(0xD800 <= cp < 0xE000) then Some(cp as char) else None
      else None
    else if |bs| == 4 then
      if 0xF0 <= bs[0] < 0xF8 && IsContinuation(bs[1]) && IsContinuation(bs[2]) && IsContinuation(bs[3]) then
        var cp := (bs[0] as int - 0xF0) * 262144 + (bs[1] as int - 0x80) * 4096
                  + (bs[2] as int - 0x80) * 64 + (bs[3] as int - 0x80);
        if 0x10000 <= cp < 0x110000 then Some(cp as char) else None
      else None
    else None
  }

  /** decodeURIComponent(s); None where it throws URIError. */
  function DecodeURIComponent(s: string): Option<string>
    decreases |s|
  {
    if s == [] then Some([])
    else if s[0] != '%' then
      var rest :- DecodeURIComponent(s[1..]);
      Some([s[0]] + rest)
    else
      var lead :- ParseEscape(s);
      var n :- LeadLength(lead);
      var bytes :- ParseEscapes(s, n);
      var c :- Utf8Decode(bytes);
      var rest :- DecodeURIComponent(s[3 * n..]);
      Some([c] + rest)
  }

  // ----- Facts about the encoder -----

  lemma HexDigitValue(n: nat)
    requires n < 16
    ensures HexValue(HexDigits[n]) == Some(n)
  {
  }

  lemma ParseEscapeOfEscape(b: Byte, rest: string)
    ensures ParseEscape(Escape(b) + rest) == Some(b)
  {
    HexDigitValue(b / 16);
    HexDigitValue(b % 16);
  }

  lemma {:induction false} ParseEscapesOfEscapeAll(bs: seq<Byte>, rest: string)
    ensures ParseEscapes(EscapeAll(bs) + rest, |bs|) == Some(bs)
  {
    if bs != [] {
      var tail := EscapeAll(bs[1..]) + rest;
      var s := EscapeAll(bs) + rest;
      assert s == Escape(bs[0]) + tail;
      EscapeAllCons(bs, rest);
      ParseEscapeOfEscape(bs[0], tail);
      assert s[3..] == tail;
      ParseEscapesOfEscapeAll(bs[1..], rest);
      assert ParseEscapes(tail, |bs| - 1) == Some(bs[1..]);
      assert [bs[0]] + bs[1..] == bs;
    }
  }

  lemma Utf8RoundTrip(c: char)
    ensures LeadLength(Utf8(c)[0]) == Some(|Utf8(c)|)
    ensures Utf8Decode(Utf8(c)) == Some(c)
  {
    var cp := c as int;
    if cp < 0x80 {
    } else if cp < 0x800 {
      Utf8TwoBytes(c);
    } else if cp < 0x10000 {
      Utf8ThreeBytes(c);
    } else {
      Utf8FourBytes(c);
    }
  }

  lemma Utf8TwoBytes(c: char)
    requires 0x80 <= c as int < 0x800
    ensures Utf8(c) == [0xC0 + c as int / 64, 0x80 + c as int % 64]
    ensures Utf8Decode(Utf8(c)) == Some(c)
  {
    var cp := c as int;
    var q1, d0 := cp / 64, cp % 64;
    assert cp == q1 * 64 + d0;
    assert 2 <= q1 < 32;
  }

  lemma Utf8ThreeBytes(c: char)
    requires 0x800 <= c as int < 0x10000
    ensures Utf8Decode(Utf8(c)) == Some(c)
  {
    var cp := c as int;
    var q1, d0 := cp / 64, cp % 64;
    var q2, d1 := q1 / 64, q1 % 64;
    assert cp == q1 * 64 + d0;
    assert q1 == q2 * 64 + d1;
    assert cp == q2 * 4096 + d1 * 64 + d0;
    assert Utf8(c) == [0xE0 + q2, 0x80 + d1, 0x80 + d0];
  }

  lemma Utf8FourBytes(c: char)
    requires 0x10000 <= c as int
    ensures Utf8Decode(Utf8(c)) == Some(c)
  {
    var cp := c as int;
    var q1, d0 := cp / 64, cp % 64;
    var q2, d1 := q1 / 64, q1 % 64;
    var q3, d2 := q2 / 64, q2 % 64;
    assert cp == q1 * 64 + d0;
    assert q1 == q2 * 64 + d1;
    assert q2 == q3 * 64 + d2;
    assert cp == q3 * 262144 + d2 * 4096 + d1 * 64 + d0;
    assert Utf8(c) == [0xF0 + q3, 0x80 + d2, 0x80 + d1, 0x80 + d0];
  }

  lemma DecodeEncodedChar(c: char, rest: string)
    ensures DecodeURIComponent(EncodeChar(c) + rest) ==
            (match DecodeURIComponent(rest)
             case Some(r) => Some([c] + r)
             case None => None)
  {
    if IsUnreserved(c) {
      assert ([c] + rest)[1..] == rest;
    } else {
      DecodeEscapedChar(c, rest);
    }
  }

  /** A character outside the unreserved set: its escapes decode to it, and decoding carries on after them. */
  lemma DecodeEscapedChar(c: char, rest: string)
    requires !IsUnreserved(c)
    ensures DecodeURIComponent(EscapeAll(Utf8(c)) + rest) ==
            (match DecodeURIComponent(rest)
             case Some(r) => Some([c] + r)
             case None => None)
  {
    Utf8RoundTrip(c);
    DecodeEscapedBytes(Utf8(c), c, rest);
  }

  /** The escapes of a complete UTF-8 sequence for `c`, followed by `rest`. */
  lemma DecodeEscapedBytes(bs: seq<Byte>, c: char, rest: string)
    requires |bs| >= 1 && LeadLength(bs[0]) == Some(|bs|) && Utf8Decode(bs) == Some(c)
    ensures DecodeURIComponent(EscapeAll(bs) + rest) ==
            (match DecodeURIComponent(rest)
             case Some(r) => Some([c] + r)
             case None => None)
  {
    var s := EscapeAll(bs) + rest;
    EscapeAllCons(bs, rest);
    EscapeAllRest(bs, rest);
    ParseEscapeOfEscape(bs[0], EscapeAll(bs[1..]) + rest);
    ParseEscapesOfEscapeAll(bs, rest);
    DecodeAtEscapes(s, bs, c, rest);
  }

  lemma EscapeAllCons(bs: seq<Byte>, rest: string)
    requires bs != []
    ensures EscapeAll(bs) + rest == Escape(bs[0]) + (EscapeAll(bs[1..]) + rest)
  {
    assert EscapeAll(bs) == Escape(bs[0]) + EscapeAll(bs[1..]);
  }

  lemma EscapeAllRest(bs: seq<Byte>, rest: string)
    ensures (EscapeAll(bs) + rest)[3 * |bs|..] == rest
  {
    var e := EscapeAll(bs);
    assert |e| == 3 * |bs|;
  }

  /** Decoding at `%`: a complete escaped sequence for `c` followed by `rest`. */
  lemma DecodeAtEscapes(s: string, bs: seq<Byte>, c: char, rest: string)
    requires |bs| >= 1 && |s| >= 1 && s[0] == '%'
    requires ParseEscape(s) == Some(bs[0]) && LeadLength(bs[0]) == Some(|bs|)
    requires ParseEscapes(s, |bs|) == Some(bs) && Utf8Decode(bs) == Some(c)
    requires 3 * |bs| <= |s| && s[3 * |bs|..] == rest
    ensures DecodeURIComponent(s) ==
            (match DecodeURIComponent(rest)
             case Some(r) => Some([c] + r)
             case None => None)
  {
  }

  /** decodeURIComponent undoes encodeURIComponent. */
  lemma {:induction false} DecodeEncode(s: string)
    ensures DecodeURIComponent(EncodeURIComponent(s)) == Some(s)
  {
    if s != [] {
      DecodeEncode(s[1..]);
      assert EncodeURIComponent(s) == EncodeChar(s[0]) + EncodeURIComponent(s[1..]);
      DecodeEncodedChar(s[0], EncodeURIComponent(s[1..]));
      assert DecodeURIComponent(EncodeChar(s[0]) + EncodeURIComponent(s[1..])) == Some([s[0]] + s[1..]);
      assert [s[0]] + s[1..] == s;
    }
  }

  /** Hence encodeURIComponent is injective. */
  lemma EncodeInjective(s: string, t: string)
    requires EncodeURIComponent(s) == EncodeURIComponent(t)
    ensures s == t
  {
    DecodeEncode(s);
    DecodeEncode(t);
  }

  /** encodeURIComponent leaves a string unchanged exactly when all its characters are unreserved. */
  lemma {:induction false} EncodeIdentityIff(s: string)
    ensures EncodeURIComponent(s) == s <==> forall i :: 0 <= i < |s| ==> IsUnreserved(s[i])
  {
    if s != [] {
      EncodeIdentityIff(s[1..]);
      var r := EncodeURIComponent(s);
      if IsUnreserved(s[0]) {
        assert r == [s[0]] + EncodeURIComponent(s[1..]);
        assert r == s <==> EncodeURIComponent(s[1..]) == s[1..] by {
          if r == s { assert r[1..] == s[1..]; }
          if EncodeURIComponent(s[1..]) == s[1..] { assert [s[0]] + s[1..] == s; }
        }
        assert (forall i :: 0 <= i < |s| ==> IsUnreserved(s[i]))
           <==> (forall i :: 0 <= i < |s[1..]| ==> IsUnreserved(s[1..][i])) by {
          if forall i :: 0 <= i < |s[1..]| ==> IsUnreserved(s[1..][i]) {
            forall i | 0 <= i < |s| ensures IsUnreserved(s[i]) {
              if i > 0 { assert s[i] == s[1..][i - 1]; }
            }
          }
        }
      } else {
        assert |r| > |s|;
      }
    }
  }

  /** encodeURIComponent works character by character, so it distributes over concatenation. */
  lemma {:induction false} EncodeConcat(s: string, t: string)
    ensures EncodeURIComponent(s + t) == EncodeURIComponent(s) + EncodeURIComponent(t)
  {
    if s != [] {
      assert (s + t)[0] == s[0];
      assert (s + t)[1..] == s[1..] + t;
      EncodeConcat(s[1..], t);
    } else {
      assert s + t == t;
    }
  }

  /** A space is escaped as `%20`. */
  lemma EncodeSpace()
    ensures EncodeURIComponent(" ") == "%20"
  {
    var c := ' ';
    assert Utf8(c) == [32];
    assert Escape(32) == "%20";
    assert EscapeAll([32]) == Escape(32) + EscapeAll([]);
    assert " "[1..] == [];
  }

  /** decodeURIComponent is the identity on text without `%`. */
  lemma {:induction false} DecodeWithoutEscapes(s: string)
    requires '%' !in s
    ensures DecodeURIComponent(s) == Some(s)
  {
    if s != [] {
      DecodeWithoutEscapes(s[1..]);
      assert [s[0]] + s[1..] == s;
    }
  }

  /** The two characters after the `%` are hexadecimal digits, which are unreserved. */
  lemma EscapeDigits(b: Byte)
    ensures IsUnreserved(Escape(b)[1]) && IsUnreserved(Escape(b)[2])
  {
  }

  /** Every character of an escaped byte sequence is `%` or a hexadecimal digit. */
  lemma {:induction false} EscapeAllAlphabet(bs: seq<Byte>)
    ensures forall i :: 0 <= i < |EscapeAll(bs)| ==> IsEncodedChar(EscapeAll(bs)[i])
  {
    if bs != [] {
      EscapeAllAlphabet(bs[1..]);
      var head, tail := Escape(bs[0]), EscapeAll(bs[1..]);
      EscapeDigits(bs[0]);
      forall i | 0 <= i < |EscapeAll(bs)| ensures IsEncodedChar(EscapeAll(bs)[i]) {
        if i >= 3 {
          assert EscapeAll(bs)[i] == tail[i - 3];
        } else {
          assert EscapeAll(bs)[i] == head[i];
        }
      }
    }
  }

  /** encodeURIComponent writes only unreserved characters and `%`. */
  lemma {:induction false} EncodedAlphabet(s: string)
    ensures forall i :: 0 <= i < |EncodeURIComponent(s)| ==> IsEncodedChar(EncodeURIComponent(s)[i])
  {
    if s != [] {
      EncodedAlphabet(s[1..]);
      var head, tail := EncodeChar(s[0]), EncodeURIComponent(s[1..]);
      if !IsUnreserved(s[0]) {
        EscapeAllAlphabet(Utf8(s[0]));
      }
      forall i | 0 <= i < |EncodeURIComponent(s)| ensures IsEncodedChar(EncodeURIComponent(s)[i]) {
        if i >= |head| {
          assert EncodeURIComponent(s)[i] == tail[i - |head|];
        } else {
          assert EncodeURIComponent(s)[i] == head[i];
        }
      }
    }
  }

  /** A character outside the output alphabet (such as `&`, `=`, `,`, `|`, `{` or `$`) never appears in an encoding. */
  lemma EncodedExcludes(s: string, c: char)
    requires !IsEncodedChar(c)
    ensures c !in EncodeURIComponent(s)
  {
    EncodedAlphabet(s);
  }
}
