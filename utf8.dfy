/**
 * UTF-8 as the WHATWG Encoding Standard defines it: the "UTF-8 encoder",
 * which turns a code point into one to four bytes, and the "UTF-8 decoder",
 * a byte-at-a-time state machine, run in replacement error mode (every
 * error yields U+FFFD), which is what "UTF-8 decode without BOM" does.
 * A Dafny `char` is a Unicode scalar value, so every string can be encoded.
 */
module Utf8 {

  newtype byte = b: int | 0 <= b < 0x100

  const Replacement: char := '\U{FFFD}'

  /** A continuation byte, `0x80 | bits`, carrying six payload bits. */
  function Cont(bits: int): (b: byte)
    requires 0 <= bits < 0x40
    ensures 0x80 <= b <= 0xBF && (b % 0x40) as int == bits
  {
    (0x80 + bits) as byte
  }

  /**
   * The UTF-8 encoder on one code point. `x >> (6 * n)` is written as a
   * division by 64^n and `t & 0x3F` as `t % 64`.
   */
  function EncodeChar(c: char): (r: seq<byte>)
    ensures 1 <= |r| <= 4
    ensures |r| == 1 <==> c as int < 0x80
  {
    var cp := c as int;
    if cp < 0x80 then [cp as byte]
    else if cp < 0x800 then [(cp / 0x40 + 0xC0) as byte, Cont(cp % 0x40)]
    else if cp < 0x10000 then
      [(cp / 0x1000 + 0xE0) as byte, Cont((cp / 0x40) % 0x40), Cont(cp % 0x40)]
    else
      [(cp / 0x40000 + 0xF0) as byte, Cont((cp / 0x1000) % 0x40),
       Cont((cp / 0x40) % 0x40), Cont(cp % 0x40)]
  }

  /** UTF-8 encode: the encoder applied to each code point in turn. */
  function Encode(s: string): seq<byte>
  {
    if s == [] then [] else EncodeChar(s[0]) + Encode(s[1..])
  }

  /** The decoder's variables: UTF-8 code point, bytes seen, bytes needed, lower and upper boundary. */
  datatype DecoderState = DecoderState(codePoint: int, bytesSeen: nat, bytesNeeded: nat, lower: int, upper: int)

  const Initial := DecoderState(0, 0, 0, 0x80, 0xBF)

  predicate ScalarValue(n: int)
  {
    0 <= n < 0xD800 || 0xE000 <= n < 0x110000
  }

  /** The state after a lead byte; for bytes that are not a lead byte the decoder reports an error. */
  function AfterLead(b: byte): (st: DecoderState)
    requires 0xC2 <= b <= 0xF4
    ensures 0 == st.bytesSeen < st.bytesNeeded <= 3
  {
    if b <= 0xDF then DecoderState((b % 0x20) as int, 0, 1, 0x80, 0xBF)
    else if b <= 0xEF then
      DecoderState((b % 0x10) as int, 0, 2, if b == 0xE0 then 0xA0 else 0x80, if b == 0xED then 0x9F else 0xBF)
    else
      DecoderState((b % 0x08) as int, 0, 3, if b == 0xF0 then 0x90 else 0x80, if b == 0xF4 then 0x8F else 0xBF)
  }

  /**
   * What the decoder's handler does with one byte: the code points it
   * emits (none, one, or U+FFFD on an error), the state it leaves, and
   * whether the byte was consumed or is to be read again.
   */
  datatype StepResult = StepResult(out: string, next: DecoderState, consumed: bool)

  /**
   * The UTF-8 decoder's handler on one byte. A byte outside the boundaries
   * ends the pending sequence with an error and is not consumed: the
   * standard restores it to the stream, to be read again from the idle state.
   * A completed code point is emitted as it is; the boundaries make it a
   * scalar value whenever the decoder started idle (`StepKeepsValid`), so
   * the U+FFFD alternative in the last branch is never taken from such a
   * state and only stands there because a `char` must be a scalar value.
   */
  function Step(st: DecoderState, b: byte): (r: StepResult)
    ensures !r.consumed ==> st.bytesNeeded > 0 && r.next == Initial
  {
    if st.bytesNeeded == 0 then
      if b <= 0x7F then StepResult([b as int as char], Initial, true)
      else if 0xC2 <= b <= 0xF4 then StepResult([], AfterLead(b), true)
      else StepResult([Replacement], Initial, true)
    else if !(st.lower <= b as int <= st.upper) then
      StepResult([Replacement], Initial, false)
    else
      var cp := st.codePoint * 0x40 + (b % 0x40) as int;
      if st.bytesSeen + 1 < st.bytesNeeded then
        StepResult([], DecoderState(cp, st.bytesSeen + 1, st.bytesNeeded, 0x80, 0xBF), true)
      else
        StepResult([if ScalarValue(cp) then cp as char else Replacement], Initial, true)
  }

  /**
   * Runs the decoder from state `st` over `bs`, byte by byte; at the end of
   * the input a pending sequence is an error.
   */
  function Run(st: DecoderState, bs: seq<byte>): string
    decreases |bs|, st.bytesNeeded
  {
    if bs == [] then
      if st.bytesNeeded != 0 then [Replacement] else []
    else
      var r := Step(st, bs[0]);
      r.out + Run(r.next, if r.consumed then bs[1..] else bs)
  }

  /** UTF-8 decode without BOM, replacing every malformed sequence by U+FFFD. */
  function Decode(bs: seq<byte>): string
  {
    Run(Initial, bs)
  }

  // The decoder's invariant

  /**
   * The smallest and the largest code point the pending sequence can still
   * complete to: the next byte lies between the boundaries and every later
   * one in 0x80..0xBF, each contributing its six low bits.
   */
  function MinFinal(st: DecoderState): int
  {
    var x := st.codePoint * 0x40 + (st.lower - 0x80);
    var k := st.bytesNeeded - st.bytesSeen;
    if k == 1 then x else if k == 2 then x * 0x40 else x * 0x1000
  }

  function MaxFinal(st: DecoderState): int
  {
    var x := st.codePoint * 0x40 + (st.upper - 0x80) + 1;
    var k := st.bytesNeeded - st.bytesSeen;
    (if k == 1 then x else if k == 2 then x * 0x40 else x * 0x1000) - 1
  }

  /**
   * The states the decoder can be in: idle, or partway through a sequence
   * whose every completion is a Unicode scalar value (no surrogate, nothing
   * above U+10FFFF).
   */
  predicate Valid(st: DecoderState)
  {
    if st.bytesNeeded == 0 then st == Initial
    else
      && st.bytesSeen < st.bytesNeeded <= 3
      && 0x80 <= st.lower <= st.upper <= 0xBF
      && 0 <= MinFinal(st)
      && MaxFinal(st) <= 0x10FFFF
      && (MaxFinal(st) < 0xD800 || 0xE000 <= MinFinal(st))
  }

  lemma AfterLeadValid(b: byte)
    requires 0xC2 <= b <= 0xF4
    ensures Valid(AfterLead(b))
  {
    if b <= 0xDF {
      assert AfterLead(b) == DecoderState((b % 0x20) as int, 0, 1, 0x80, 0xBF);
    }
  }

  /** A continuation byte inside the boundaries narrows the pending sequence's range of completions. */
  lemma ContinueValid(st: DecoderState, b: byte)
    requires Valid(st) && 0 < st.bytesNeeded && st.bytesSeen + 1 < st.bytesNeeded
    requires st.lower <= b as int <= st.upper
    ensures Valid(DecoderState(st.codePoint * 0x40 + (b % 0x40) as int, st.bytesSeen + 1, st.bytesNeeded, 0x80, 0xBF))
  {
    var x := (b % 0x40) as int;
    var next := DecoderState(st.codePoint * 0x40 + x, st.bytesSeen + 1, st.bytesNeeded, 0x80, 0xBF);
    assert x == b as int - 0x80;
    assert MinFinal(st) <= MinFinal(next) && MaxFinal(next) <= MaxFinal(st);
  }

  /** The byte that completes a sequence from a valid state completes it to a scalar value. */
  lemma CompleteScalar(st: DecoderState, b: byte)
    requires Valid(st) && 0 < st.bytesNeeded && st.bytesSeen + 1 == st.bytesNeeded
    requires st.lower <= b as int <= st.upper
    ensures ScalarValue(st.codePoint * 0x40 + (b % 0x40) as int)
  {
    assert (b % 0x40) as int == b as int - 0x80;
  }

  /**
   * The lead-byte table and the boundaries keep the decoder in a valid
   * state, and a sequence completed from a valid state is a scalar value,
   * so no completed code point is ever replaced.
   */
  lemma StepKeepsValid(st: DecoderState, b: byte)
    requires Valid(st)
    ensures Valid(Step(st, b).next)
    ensures st.bytesNeeded == st.bytesSeen + 1 && st.lower <= b as int <= st.upper
        ==> ScalarValue(st.codePoint * 0x40 + (b % 0x40) as int)
  {
    if st.bytesNeeded == 0 {
      if 0xC2 <= b <= 0xF4 {
        AfterLeadValid(b);
      }
    } else if st.lower <= b as int <= st.upper {
      if st.bytesSeen + 1 < st.bytesNeeded {
        ContinueValid(st, b);
      } else {
        CompleteScalar(st, b);
      }
    }
  }

  /**
   * Along the whole run of the decoder from `st` over `bs`, every byte that
   * completes a sequence completes it to a scalar value.
   */
  predicate CompletesToScalars(st: DecoderState, bs: seq<byte>)
    decreases |bs|, st.bytesNeeded
  {
    if bs == [] then true
    else
      var b := bs[0];
      var r := Step(st, b);
      && (st.bytesNeeded == st.bytesSeen + 1 && st.lower <= b as int <= st.upper
          ==> ScalarValue(st.codePoint * 0x40 + (b % 0x40) as int))
      && CompletesToScalars(r.next, if r.consumed then bs[1..] else bs)
  }

  /** From a valid state, and so when decoding any input, the U+FFFD fallback for a completed sequence is never taken. */
  lemma {:induction false} ValidCompletesToScalars(st: DecoderState, bs: seq<byte>)
    requires Valid(st)
    ensures CompletesToScalars(st, bs)
    decreases |bs|, st.bytesNeeded
  {
    if bs != [] {
      var r := Step(st, bs[0]);
      StepKeepsValid(st, bs[0]);
      ValidCompletesToScalars(r.next, if r.consumed then bs[1..] else bs);
    }
  }

  lemma DecodeCompletesToScalars(bs: seq<byte>)
    ensures CompletesToScalars(Initial, bs)
  {
    ValidCompletesToScalars(Initial, bs);
  }

  lemma {:induction false} EncodeAppend(s: string, t: string)
    ensures Encode(s + t) == Encode(s) + Encode(t)
  {
    if s != [] {
      assert (s + t)[0] == s[0];
      assert (s + t)[1..] == s[1..] + t;
      EncodeAppend(s[1..], t);
      calc {
        Encode(s + t);
        EncodeChar(s[0]) + Encode(s[1..] + t);
        EncodeChar(s[0]) + (Encode(s[1..]) + Encode(t));
        (EncodeChar(s[0]) + Encode(s[1..])) + Encode(t);
      }
    } else {
      assert s + t == t;
    }
  }

  /** Text joined around an ASCII character encodes as the parts' encodings joined around its single byte. */
  lemma EncodeJoin(a: string, c: char, b: string)
    requires c as int < 0x80
    ensures Encode(a + [c] + b) == Encode(a) + [c as int as byte] + Encode(b)
  {
    EncodeAppend(a + [c], b);
    EncodeAppend(a, [c]);
    assert [c][1..] == [];
    assert Encode([c]) == EncodeChar(c) + Encode([]);
  }

  /** An ASCII string encodes to its own code units, one byte each. */
  lemma {:induction false} EncodeAscii(s: string)
    requires forall i :: 0 <= i < |s| ==> s[i] as int < 0x80
    ensures |Encode(s)| == |s|
    ensures forall i :: 0 <= i < |s| ==> Encode(s)[i] as int == s[i] as int
  {
    if s != [] {
      EncodeAscii(s[1..]);
    }
  }

  /** Running over a byte followed by more is one step, then the run from the state it leaves. */
  lemma RunCons(st: DecoderState, b: byte, rest: seq<byte>)
    ensures var r := Step(st, b);
      Run(st, [b] + rest) == r.out + Run(r.next, if r.consumed then rest else [b] + rest)
  {
    assert ([b] + rest)[0] == b && ([b] + rest)[1..] == rest;
  }

  /** A continuation byte with six payload bits `x` completes a one-byte-pending sequence. */
  lemma RunLast(st: DecoderState, x: int, rest: seq<byte>)
    requires 0 <= x < 0x40 && 0 < st.bytesNeeded == st.bytesSeen + 1
    requires st.lower <= 0x80 + x <= st.upper
    requires ScalarValue(st.codePoint * 0x40 + x)
    ensures Run(st, [Cont(x)] + rest) == [(st.codePoint * 0x40 + x) as char] + Run(Initial, rest)
  {
    var b := Cont(x);
    assert Step(st, b) == StepResult([(st.codePoint * 0x40 + x) as char], Initial, true);
    RunCons(st, b, rest);
  }

  /** A continuation byte with payload `x` that leaves more bytes needed. */
  lemma RunMiddle(st: DecoderState, x: int, rest: seq<byte>)
    requires 0 <= x < 0x40 && st.bytesNeeded > st.bytesSeen + 1
    requires st.lower <= 0x80 + x <= st.upper
    ensures Run(st, [Cont(x)] + rest)
         == Run(DecoderState(st.codePoint * 0x40 + x, st.bytesSeen + 1, st.bytesNeeded, 0x80, 0xBF), rest)
  {
    var b := Cont(x);
    var next := DecoderState(st.codePoint * 0x40 + x, st.bytesSeen + 1, st.bytesNeeded, 0x80, 0xBF);
    assert Step(st, b) == StepResult([], next, true);
    RunCons(st, b, rest);
    assert Run(st, [b] + rest) == [] + Run(next, rest);
  }

  lemma RunLead(b: byte, rest: seq<byte>)
    requires 0xC2 <= b <= 0xF4
    ensures Run(Initial, [b] + rest) == Run(AfterLead(b), rest)
  {
    assert Step(Initial, b) == StepResult([], AfterLead(b), true);
    RunCons(Initial, b, rest);
    assert Run(Initial, [b] + rest) == [] + Run(AfterLead(b), rest);
  }

  lemma DecodeChar2(c: char, rest: seq<byte>)
    requires 0x80 <= c as int < 0x800
    ensures Run(Initial, EncodeChar(c) + rest) == [c] + Run(Initial, rest)
  {
    var cp := c as int;
    var b0, x := (cp / 0x40 + 0xC0) as byte, cp % 0x40;
    assert EncodeChar(c) + rest == [b0] + ([Cont(x)] + rest);
    RunLead(b0, [Cont(x)] + rest);
    assert AfterLead(b0) == DecoderState(cp / 0x40, 0, 1, 0x80, 0xBF);
    RunLast(AfterLead(b0), x, rest);
  }

  /**
   * The bytes of a three-byte encoding, followed by `rest`: a lead byte with
   * four payload bits, then two continuation bytes with six each.
   */
  lemma Split3(c: char, rest: seq<byte>) returns (lead: int, x1: int, x2: int)
    requires 0x800 <= c as int < 0x10000
    ensures 0 <= lead <= 0xF && 0 <= x1 < 0x40 && 0 <= x2 < 0x40
    ensures lead == 0 ==> x1 >= 0x20
    ensures lead == 0xD ==> x1 < 0x20
    ensures (lead * 0x40 + x1) * 0x40 + x2 == c as int
    ensures EncodeChar(c) + rest == [(0xE0 + lead) as byte, Cont(x1)] + ([Cont(x2)] + rest)
  {
    var cp := c as int;
    lead, x1, x2 := cp / 0x1000, (cp / 0x40) % 0x40, cp % 0x40;
    assert lead * 0x40 + x1 == cp / 0x40;
    assert EncodeChar(c) == [(0xE0 + lead) as byte, Cont(x1), Cont(x2)];
  }

  /**
   * The bytes of a four-byte encoding, followed by `rest`: a lead byte with
   * three payload bits, then three continuation bytes with six each.
   */
  lemma Split4(c: char, rest: seq<byte>) returns (lead: int, x1: int, x2: int, x3: int)
    requires 0x10000 <= c as int
    ensures 0 <= lead <= 4 && 0 <= x1 < 0x40 && 0 <= x2 < 0x40 && 0 <= x3 < 0x40
    ensures lead == 0 ==> x1 >= 0x10
    ensures lead == 4 ==> x1 < 0x10
    ensures ((lead * 0x40 + x1) * 0x40 + x2) * 0x40 + x3 == c as int
    ensures EncodeChar(c) + rest == [(0xF0 + lead) as byte, Cont(x1)] + ([Cont(x2), Cont(x3)] + rest)
  {
    var cp := c as int;
    lead, x1, x2, x3 := cp / 0x40000, (cp / 0x1000) % 0x40, (cp / 0x40) % 0x40, cp % 0x40;
    assert lead * 0x40 + x1 == cp / 0x1000;
    assert (cp / 0x1000) * 0x40 + x2 == cp / 0x40;
    assert EncodeChar(c) == [(0xF0 + lead) as byte, Cont(x1), Cont(x2), Cont(x3)];
  }

  lemma Lead3State(lead: int)
    requires 0 <= lead <= 0xF
    ensures AfterLead((0xE0 + lead) as byte) == DecoderState(lead, 0, 2, if lead == 0 then 0xA0 else 0x80, if lead == 0xD then 0x9F else 0xBF)
  {
    assert ((0xE0 + lead) as byte) % 0x10 == lead as byte;
  }

  lemma Lead4State(lead: int)
    requires 0 <= lead <= 4
    ensures AfterLead((0xF0 + lead) as byte) == DecoderState(lead, 0, 3, if lead == 0 then 0x90 else 0x80, if lead == 4 then 0x8F else 0xBF)
  {
    assert ((0xF0 + lead) as byte) % 0x08 == lead as byte;
  }

  /** The lead byte and first continuation byte of a three-byte sequence. */
  lemma Head3(lead: int, x1: int, rest: seq<byte>)
    requires 0 <= lead <= 0xF && 0 <= x1 < 0x40
    requires lead == 0 ==> x1 >= 0x20
    requires lead == 0xD ==> x1 < 0x20
    ensures Run(Initial, [(0xE0 + lead) as byte, Cont(x1)] + rest)
         == Run(DecoderState(lead * 0x40 + x1, 1, 2, 0x80, 0xBF), rest)
  {
    var b0 := (0xE0 + lead) as byte;
    var st1 := DecoderState(lead, 0, 2, if lead == 0 then 0xA0 else 0x80, if lead == 0xD then 0x9F else 0xBF);
    calc {
      Run(Initial, [b0, Cont(x1)] + rest);
      { assert [b0, Cont(x1)] + rest == [b0] + ([Cont(x1)] + rest); }
      Run(Initial, [b0] + ([Cont(x1)] + rest));
      { RunLead(b0, [Cont(x1)] + rest); }
      Run(AfterLead(b0), [Cont(x1)] + rest);
      { Lead3State(lead); }
      Run(st1, [Cont(x1)] + rest);
      { RunMiddle(st1, x1, rest); }
      Run(DecoderState(lead * 0x40 + x1, 1, 2, 0x80, 0xBF), rest);
    }
  }

  /** The lead byte and first continuation byte of a four-byte sequence. */
  lemma Head4(lead: int, x1: int, rest: seq<byte>)
    requires 0 <= lead <= 4 && 0 <= x1 < 0x40
    requires lead == 0 ==> x1 >= 0x10
    requires lead == 4 ==> x1 < 0x10
    ensures Run(Initial, [(0xF0 + lead) as byte, Cont(x1)] + rest)
         == Run(DecoderState(lead * 0x40 + x1, 1, 3, 0x80, 0xBF), rest)
  {
    var b0 := (0xF0 + lead) as byte;
    var st1 := DecoderState(lead, 0, 3, if lead == 0 then 0x90 else 0x80, if lead == 4 then 0x8F else 0xBF);
    calc {
      Run(Initial, [b0, Cont(x1)] + rest);
      { assert [b0, Cont(x1)] + rest == [b0] + ([Cont(x1)] + rest); }
      Run(Initial, [b0] + ([Cont(x1)] + rest));
      { RunLead(b0, [Cont(x1)] + rest); }
      Run(AfterLead(b0), [Cont(x1)] + rest);
      { Lead4State(lead); }
      Run(st1, [Cont(x1)] + rest);
      { RunMiddle(st1, x1, rest); }
      Run(DecoderState(lead * 0x40 + x1, 1, 3, 0x80, 0xBF), rest);
    }
  }

  /** The last two continuation bytes of a four-byte sequence, whose first two bytes gave `hi`. */
  lemma Tail4(hi: int, x2: int, x3: int, rest: seq<byte>)
    requires 0 <= x2 < 0x40 && 0 <= x3 < 0x40
    requires ScalarValue((hi * 0x40 + x2) * 0x40 + x3)
    ensures Run(DecoderState(hi, 1, 3, 0x80, 0xBF), [Cont(x2), Cont(x3)] + rest)
         == [((hi * 0x40 + x2) * 0x40 + x3) as char] + Run(Initial, rest)
  {
    assert [Cont(x2), Cont(x3)] + rest == [Cont(x2)] + ([Cont(x3)] + rest);
    RunMiddle(DecoderState(hi, 1, 3, 0x80, 0xBF), x2, [Cont(x3)] + rest);
    RunLast(DecoderState(hi * 0x40 + x2, 2, 3, 0x80, 0xBF), x3, rest);
  }

  lemma DecodeChar3(c: char, rest: seq<byte>)
    requires 0x800 <= c as int < 0x10000
    ensures Run(Initial, EncodeChar(c) + rest) == [c] + Run(Initial, rest)
  {
    var lead, x1, x2 := Split3(c, rest);
    Head3(lead, x1, [Cont(x2)] + rest);
    RunLast(DecoderState(lead * 0x40 + x1, 1, 2, 0x80, 0xBF), x2, rest);
  }

  lemma DecodeChar4(c: char, rest: seq<byte>)
    requires 0x10000 <= c as int
    ensures Run(Initial, EncodeChar(c) + rest) == [c] + Run(Initial, rest)
  {
    var lead, x1, x2, x3 := Split4(c, rest);
    Head4(lead, x1, [Cont(x2), Cont(x3)] + rest);
    Tail4(lead * 0x40 + x1, x2, x3, rest);
  }

  /** Decoding the bytes of one encoded code point yields that code point and returns to the idle state. */
  lemma DecodeChar(c: char, rest: seq<byte>)
    ensures Run(Initial, EncodeChar(c) + rest) == [c] + Run(Initial, rest)
  {
    if c as int < 0x80 {
      assert EncodeChar(c) == [c as int as byte];
      RunCons(Initial, c as int as byte, rest);
    } else if c as int < 0x800 {
      DecodeChar2(c, rest);
    } else if c as int < 0x10000 {
      DecodeChar3(c, rest);
    } else {
      DecodeChar4(c, rest);
    }
  }

  /** Round trip: decoding the UTF-8 encoding of any string gives the string back. */
  lemma {:induction false} DecodeEncode(s: string)
    ensures Decode(Encode(s)) == s
  {
    if s != [] {
      DecodeChar(s[0], Encode(s[1..]));
      DecodeEncode(s[1..]);
      assert s == [s[0]] + s[1..];
    }
  }
}
