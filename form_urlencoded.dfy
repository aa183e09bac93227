/**
 * The application/x-www-form-urlencoded format of the WHATWG URL Standard,
 * which `URLSearchParams` uses: the serializer of section 5.2, the parser
 * of section 5.1 and the percent-decoding of section 1.3 that the parser
 * relies on. Names and values are strings; the wire form is ASCII.
 */
module FormUrlEncoded {
  import opened Utf8

  type Tuple = (string, string)

  /**
   * A code point outside the application/x-www-form-urlencoded
   * percent-encode set: an ASCII alphanumeric, `*`, `-`, `.` or `_`.
   * Every other code point, all non-ASCII ones included, is in the set.
   */
  predicate Unreserved(c: int)
  {
    || 0x30 <= c <= 0x39 || 0x41 <= c <= 0x5A || 0x61 <= c <= 0x7A
    || c == 0x2A || c == 0x2D || c == 0x2E || c == 0x5F
  }

  /** An ASCII upper hex digit, as percent-encoding writes it. */
  function UpperHex(n: int): (c: char)
    requires 0 <= n < 16
    ensures c as int < 0x80 && IsHexDigit(c as int as byte) && HexValue(c as int as byte) == n
  {
    if n < 10 then (0x30 + n) as char else (0x41 + n - 10) as char
  }

  /**
   * Percent-encode after encoding, for one byte of the UTF-8 encoding,
   * with space-as-plus set: SP becomes `+`, a byte outside the set is
   * kept, any other byte becomes `%` and two upper hex digits.
   */
  function EncodeByte(b: byte): (r: string)
  {
    if b == 0x20 then "+"
    else if Unreserved(b as int) then [b as int as char]
    else ['%', UpperHex(b as int / 16), UpperHex(b as int % 16)]
  }

  function EncodeBytes(bs: seq<byte>): string
  {
    if bs == [] then "" else EncodeByte(bs[0]) + EncodeBytes(bs[1..])
  }

  /** Percent-encode after encoding with UTF-8, the form-urlencoded set and space-as-plus. */
  function EncodeComponent(s: string): string
  {
    EncodeBytes(Utf8.Encode(s))
  }

  function SerializeTuple(t: Tuple): string
  {
    EncodeComponent(t.0) + "=" + EncodeComponent(t.1)
  }

  /**
   * The serializer: the encoded tuples in list order, as `name=value`,
   * separated by `&`. (The standard adds `&` before a tuple whenever the
   * output is not empty, which is before every tuple but the first, since
   * a serialized tuple always contains `=`.)
   */
  function Serialize(tuples: seq<Tuple>): string
  {
    if tuples == [] then ""
    else if |tuples| == 1 then SerializeTuple(tuples[0])
    else SerializeTuple(tuples[0]) + "&" + Serialize(tuples[1..])
  }

  predicate IsHexDigit(b: byte)
  {
    0x30 <= b <= 0x39 || 0x41 <= b <= 0x46 || 0x61 <= b <= 0x66
  }

  function HexValue(b: byte): (n: int)
    requires IsHexDigit(b)
    ensures 0 <= n < 16
  {
    if b <= 0x39 then (b - 0x30) as int
    else if b <= 0x46 then (b - 0x41) as int + 10
    else (b - 0x61) as int + 10
  }

  /**
   * Percent-decode a byte sequence: `%` and two hex digits become the byte
   * they spell; any other byte, a lone `%` included, is copied.
   */
  function PercentDecode(bs: seq<byte>): seq<byte>
  {
    if bs == [] then []
    else if bs[0] != 0x25 || |bs| < 3 || !IsHexDigit(bs[1]) || !IsHexDigit(bs[2]) then
      [bs[0]] + PercentDecode(bs[1..])
    else
      [(HexValue(bs[1]) * 16 + HexValue(bs[2])) as byte] + PercentDecode(bs[3..])
  }

  /** Every 0x2B (`+`) replaced by 0x20 (SP). */
  function ReplacePlus(bs: seq<byte>): seq<byte>
  {
    if bs == [] then [] else [if bs[0] == 0x2B then 0x20 else bs[0]] + ReplacePlus(bs[1..])
  }

  /** The position of the first `x` in `bs`, or `|bs|` when there is none. */
  function IndexOf(bs: seq<byte>, x: byte): (i: nat)
    ensures i <= |bs|
    ensures i < |bs| ==> bs[i] == x
    ensures forall j :: 0 <= j < i ==> bs[j] != x
  {
    if bs == [] then 0
    else if bs[0] == x then 0
    else 1 + IndexOf(bs[1..], x)
  }

  /** Name and value of one non-empty `&`-separated sequence: split at the first `=`, if any. */
  function ParseSequence(bs: seq<byte>): Tuple
  {
    var i := IndexOf(bs, 0x3D);
    var name := bs[..i];
    var value := if i < |bs| then bs[i + 1..] else [];
    (Utf8.Decode(PercentDecode(ReplacePlus(name))), Utf8.Decode(PercentDecode(ReplacePlus(value))))
  }

  /** The parser: the input split on `&`, empty sequences skipped, each of the others parsed. */
  function Parse(input: seq<byte>): seq<Tuple>
    decreases |input|
  {
    if input == [] then []
    else
      var i := IndexOf(input, 0x26);
      var rest := if i < |input| then input[i + 1..] else [];
      (if i == 0 then [] else [ParseSequence(input[..i])]) + Parse(rest)
  }

  /** The form-urlencoded string parser: UTF-8 encode the string, then parse the bytes. */
  function ParseString(s: string): seq<Tuple>
  {
    Parse(Utf8.Encode(s))
  }

  // Round trip

  /** The serializer writes ASCII only. */
  predicate Ascii(s: string)
  {
    forall i :: 0 <= i < |s| ==> s[i] as int < 0x80
  }

  lemma {:induction false} EncodeBytesAppend(a: seq<byte>, b: seq<byte>)
    ensures EncodeBytes(a + b) == EncodeBytes(a) + EncodeBytes(b)
  {
    if a == [] {
      assert a + b == b;
    } else {
      assert (a + b)[0] == a[0] && (a + b)[1..] == a[1..] + b;
      EncodeBytesAppend(a[1..], b);
    }
  }

  /** Encoding works character by character: it distributes over concatenation. */
  lemma EncodeComponentAppend(s: string, t: string)
    ensures EncodeComponent(s + t) == EncodeComponent(s) + EncodeComponent(t)
  {
    Utf8.EncodeAppend(s, t);
    EncodeBytesAppend(Utf8.Encode(s), Utf8.Encode(t));
  }

  /** Text made only of ASCII alphanumerics, `*`, `-`, `.` and `_` is written as it is. */
  lemma {:induction false} EncodeUnreserved(s: string)
    requires forall i :: 0 <= i < |s| ==> Unreserved(s[i] as int)
    ensures EncodeComponent(s) == s
  {
    if s != [] {
      var c := s[0];
      assert s == [c] + s[1..];
      EncodeComponentAppend([c], s[1..]);
      assert Utf8.Encode([c]) == [c as int as byte];
      assert EncodeBytes([c as int as byte]) == EncodeByte(c as int as byte) + EncodeBytes([]);
      EncodeUnreserved(s[1..]);
    }
  }

  /** `@` is percent-encoded and a space becomes `+`. */
  lemma EncodeAtAndSpace()
    ensures EncodeComponent("@") == "%40"
    ensures EncodeComponent(" ") == "+"
  {
    assert Utf8.Encode("@") == [0x40];
    assert EncodeBytes([0x40]) == EncodeByte(0x40) + EncodeBytes([]);
    assert Utf8.Encode(" ") == [0x20];
    assert EncodeBytes([0x20]) == EncodeByte(0x20) + EncodeBytes([]);
  }

  /** A serialized component never contains `&` or `=`: both are in the percent-encode set. */
  predicate NoDelimiters(s: string)
  {
    forall i :: 0 <= i < |s| ==> s[i] != '&' && s[i] != '='
  }

  lemma {:induction false} EncodeBytesShape(bs: seq<byte>)
    ensures Ascii(EncodeBytes(bs)) && NoDelimiters(EncodeBytes(bs))
  {
    if bs != [] {
      EncodeBytesShape(bs[1..]);
      var h, t := EncodeByte(bs[0]), EncodeBytes(bs[1..]);
      assert EncodeBytes(bs) == h + t;
      forall i | 0 <= i < |h + t|
        ensures (h + t)[i] as int < 0x80 && (h + t)[i] != '&' && (h + t)[i] != '='
      {
        if i >= |h| {
          assert (h + t)[i] == t[i - |h|];
        }
      }
    }
  }

  lemma {:induction false} ReplacePlusAppend(a: seq<byte>, b: seq<byte>)
    ensures ReplacePlus(a + b) == ReplacePlus(a) + ReplacePlus(b)
  {
    if a == [] {
      assert a + b == b;
    } else {
      assert (a + b)[0] == a[0] && (a + b)[1..] == a[1..] + b;
      ReplacePlusAppend(a[1..], b);
    }
  }

  /** Bytes without `+` are left as they are by the `+` replacement. */
  lemma {:induction false} ReplacePlusNoPlus(bs: seq<byte>)
    requires forall i :: 0 <= i < |bs| ==> bs[i] != 0x2B
    ensures ReplacePlus(bs) == bs
  {
    if bs != [] {
      ReplacePlusNoPlus(bs[1..]);
    }
  }

  /** Decoding the bytes of one encoded byte gives that byte back, whatever follows. */
  lemma DecodeEncodedByte(b: byte, rest: seq<byte>)
    ensures PercentDecode(ReplacePlus(Utf8.Encode(EncodeByte(b))) + rest) == [b] + PercentDecode(rest)
  {
    if b == 0x20 {
      assert Utf8.Encode("+") == [0x2B];
      assert ReplacePlus([0x2B]) == [0x20];
      assert ([0x20 as byte] + rest)[1..] == rest;
    } else if Unreserved(b as int) {
      var c := b as int as char;
      assert Utf8.Encode([c]) == [b];
      assert ReplacePlus([b]) == [b];
      assert ([b] + rest)[1..] == rest;
    } else {
      DecodePercentByte(b, rest);
    }
  }

  /** A byte written as `%` and two hex digits decodes back to itself. */
  lemma DecodePercentByte(b: byte, rest: seq<byte>)
    requires b != 0x20 && !Unreserved(b as int)
    ensures PercentDecode(ReplacePlus(Utf8.Encode(EncodeByte(b))) + rest) == [b] + PercentDecode(rest)
  {
    var h1, h2 := UpperHex(b as int / 16), UpperHex(b as int % 16);
    var d1, d2 := h1 as int as byte, h2 as int as byte;
    assert Utf8.Encode(['%', h1, h2]) == [0x25, d1, d2] by {
      Utf8.EncodeAscii(['%', h1, h2]);
    }
    ReplacePlusNoPlus([0x25, d1, d2]);
    var bs := [0x25 as byte, d1, d2] + rest;
    assert bs[0] == 0x25 && bs[1] == d1 && bs[2] == d2 && bs[3..] == rest;
  }

  /** Percent-decoding, after `+` replacement, inverts the byte encoding. */
  lemma {:induction false} DecodeEncodedBytes(bs: seq<byte>)
    ensures PercentDecode(ReplacePlus(Utf8.Encode(EncodeBytes(bs)))) == bs
  {
    if bs != [] {
      var e, t := EncodeByte(bs[0]), EncodeBytes(bs[1..]);
      Utf8.EncodeAppend(e, t);
      ReplacePlusAppend(Utf8.Encode(e), Utf8.Encode(t));
      DecodeEncodedByte(bs[0], ReplacePlus(Utf8.Encode(t)));
      DecodeEncodedBytes(bs[1..]);
      assert bs == [bs[0]] + bs[1..];
    }
  }

  /** One component: its serialization parses back to the original string. */
  lemma ComponentRoundTrip(s: string)
    ensures Utf8.Decode(PercentDecode(ReplacePlus(Utf8.Encode(EncodeComponent(s))))) == s
  {
    DecodeEncodedBytes(Utf8.Encode(s));
    Utf8.DecodeEncode(s);
  }

  /** The bytes of an ASCII string with no `&` and no `=` contain neither byte. */
  lemma PlainBytes(s: string)
    requires Ascii(s) && NoDelimiters(s)
    ensures IndexOf(Utf8.Encode(s), 0x26) == |Utf8.Encode(s)|
    ensures IndexOf(Utf8.Encode(s), 0x3D) == |Utf8.Encode(s)|
  {
    Utf8.EncodeAscii(s);
    var u := Utf8.Encode(s);
    assert forall j :: 0 <= j < |u| ==> u[j] as int == s[j] as int;
  }

  /** A sequence `n = v` with no `&` in it parses as the pair of the decoded parts. */
  lemma ParseSequenceSplit(n: seq<byte>, v: seq<byte>)
    requires IndexOf(n, 0x3D) == |n|
    ensures ParseSequence(n + [0x3D] + v)
         == (Utf8.Decode(PercentDecode(ReplacePlus(n))), Utf8.Decode(PercentDecode(ReplacePlus(v))))
  {
    var bs := n + [0x3D] + v;
    assert forall j :: 0 <= j < |n| ==> bs[j] == n[j];
    assert bs[|n|] == 0x3D;
    assert IndexOf(bs, 0x3D) == |n|;
    assert bs[..|n|] == n && bs[|n| + 1..] == v;
  }

  lemma TupleBytes(t: Tuple)
    ensures var n, v := Utf8.Encode(EncodeComponent(t.0)), Utf8.Encode(EncodeComponent(t.1));
      && Utf8.Encode(SerializeTuple(t)) == n + [0x3D] + v
      && IndexOf(n, 0x26) == |n| && IndexOf(v, 0x26) == |v| && IndexOf(n, 0x3D) == |n|
      && ParseSequence(n + [0x3D] + v) == t
  {
    var a, b := EncodeComponent(t.0), EncodeComponent(t.1);
    EncodeBytesShape(Utf8.Encode(t.0));
    EncodeBytesShape(Utf8.Encode(t.1));
    PlainBytes(a);
    PlainBytes(b);
    assert SerializeTuple(t) == a + ['='] + b;
    Utf8.EncodeJoin(a, '=', b);
    ParseSequenceSplit(Utf8.Encode(a), Utf8.Encode(b));
    ComponentRoundTrip(t.0);
    ComponentRoundTrip(t.1);
  }

  /** `&`-free bytes followed by `&` and more: the first sequence is split off. */
  lemma ParseCons(seg: seq<byte>, rest: seq<byte>)
    requires seg != [] && IndexOf(seg, 0x26) == |seg|
    ensures Parse(seg + [0x26] + rest) == [ParseSequence(seg)] + Parse(rest)
  {
    var bs := seg + [0x26] + rest;
    assert forall j :: 0 <= j < |seg| ==> bs[j] == seg[j];
    assert bs[|seg|] == 0x26;
    assert IndexOf(bs, 0x26) == |seg|;
    assert bs[..|seg|] == seg && bs[|seg| + 1..] == rest;
  }

  lemma ParseLast(seg: seq<byte>)
    requires seg != [] && IndexOf(seg, 0x26) == |seg|
    ensures Parse(seg) == [ParseSequence(seg)]
  {
    assert seg[..|seg|] == seg;
  }

  lemma NoAmpersandConcat(n: seq<byte>, v: seq<byte>)
    requires IndexOf(n, 0x26) == |n| && IndexOf(v, 0x26) == |v|
    ensures IndexOf(n + [0x3D] + v, 0x26) == |n + [0x3D] + v|
  {
    var bs := n + [0x3D] + v;
    forall j | 0 <= j < |bs|
      ensures bs[j] != 0x26
    {
      if j > |n| {
        assert bs[j] == v[j - |n| - 1];
      } else if j < |n| {
        assert bs[j] == n[j];
      }
    }
  }

  /**
   * Round trip of the whole format: parsing what the serializer wrote gives
   * back exactly the tuples, in order, empty names and values included.
   */
  lemma {:induction false} ParseSerialize(tuples: seq<Tuple>)
    ensures ParseString(Serialize(tuples)) == tuples
  {
    if tuples == [] {
      assert Utf8.Encode("") == [];
    } else {
      var t := tuples[0];
      TupleBytes(t);
      var n, v := Utf8.Encode(EncodeComponent(t.0)), Utf8.Encode(EncodeComponent(t.1));
      var seg := n + [0x3D] + v;
      NoAmpersandConcat(n, v);
      if |tuples| == 1 {
        ParseLast(seg);
        assert tuples == [t];
      } else {
        var rest := Serialize(tuples[1..]);
        assert Serialize(tuples) == SerializeTuple(t) + ['&'] + rest;
        Utf8.EncodeJoin(SerializeTuple(t), '&', rest);
        ParseCons(seg, Utf8.Encode(rest));
        ParseSerialize(tuples[1..]);
        assert tuples == [t] + tuples[1..];
      }
    }
  }
}
