/** The Base64 encoding of section 4 of RFC 4648 as Python's
    `base64.b64encode` produces it, and the lenient decoding
    `base64.b64decode(s)` applies: CPython's `binascii.a2b_base64` with
    `strict_mode=False` (the algorithm of CPython 3.11 and later), which
    skips characters outside the alphabet and stops at the first complete
    padding. */
module Base64 {
  import opened Wrappers
  import opened Text
  import Bits

  const PadChar: char := '='

  predicate IsSymbol(c: char)
  {
    'A' <= c <= 'Z' || 'a' <= c <= 'z' || '0' <= c <= '9' || c == '+' || c == '/'
  }

  /** The symbol of value `v` in the alphabet of section 4 of RFC 4648. */
  function Symbol(v: nat): (c: char)
    requires v < 64
    ensures IsSymbol(c)
  {
    if v < 26 then ('A' as int + v) as char
    else if v < 52 then ('a' as int + v - 26) as char
    else if v < 62 then ('0' as int + v - 52) as char
    else if v == 62 then '+'
    else '/'
  }

  function SymbolValue(c: char): (v: nat)
    requires IsSymbol(c)
    ensures v < 64 && Symbol(v) == c
  {
    if 'A' <= c <= 'Z' then c as int - 'A' as int
    else if 'a' <= c <= 'z' then c as int - 'a' as int + 26
    else if '0' <= c <= '9' then c as int - '0' as int + 52
    else if c == '+' then 62
    else 63
  }

  lemma SymbolRoundTrip(v: nat)
    requires v < 64
    ensures SymbolValue(Symbol(v)) == v
  {
  }

  /** The values of the bytes. */
  function Values(data: seq<bv8>): (vals: seq<nat>)
    ensures |vals| == |data|
    ensures forall i :: 0 <= i < |vals| ==> vals[i] < 256
  {
    seq(|data|, i requires 0 <= i < |data| => data[i] as nat)
  }

  /** The four symbols of the group of bytes `a`, `b`, `c`. */
  function Quartet(a: nat, b: nat, c: nat): (s: string)
    requires a < 256 && b < 256 && c < 256
    ensures |s| == 4
  {
    [Symbol(a / 4), Symbol(a % 4 * 16 + b / 16), Symbol(b % 16 * 4 + c / 64), Symbol(c % 64)]
  }

  /** The encoding of byte values `vals`: three bytes become four symbols; a
      final group of one or two bytes is filled with zero bits and padded
      with `=`. */
  function EncodeValues(vals: seq<nat>): (s: string)
    requires forall i :: 0 <= i < |vals| ==> vals[i] < 256
    ensures |s| == 4 * ((|vals| + 2) / 3)
    decreases |vals|
  {
    assert |vals| >= 3 ==> (|vals| - 3 + 2) / 3 + 1 == (|vals| + 2) / 3;
    if |vals| == 0 then []
    else if |vals| == 1 then Quartet(vals[0], 0, 0)[..2] + [PadChar, PadChar]
    else if |vals| == 2 then Quartet(vals[0], vals[1], 0)[..3] + [PadChar]
    else Quartet(vals[0], vals[1], vals[2]) + EncodeValues(vals[3..])
  }

  /** `base64.b64encode`. */
  function Encode(data: seq<bv8>): (s: string)
    ensures |s| == 4 * ((|data| + 2) / 3)
  {
    EncodeValues(Values(data))
  }

  /** Only the last two characters of an encoding can be padding, every
      other character is a symbol. */
  lemma {:induction false} EncodeValuesShape(vals: seq<nat>)
    requires forall i :: 0 <= i < |vals| ==> vals[i] < 256
    ensures forall i :: 0 <= i < |EncodeValues(vals)| ==>
              IsSymbol(EncodeValues(vals)[i]) || (i >= |EncodeValues(vals)| - 2 && EncodeValues(vals)[i] == PadChar)
    decreases |vals|
  {
    if |vals| > 2 {
      var head, tail := Quartet(vals[0], vals[1], vals[2]), EncodeValues(vals[3..]);
      EncodeValuesShape(vals[3..]);
      assert forall i :: 0 <= i < 4 ==> IsSymbol(head[i]);
      assert forall i :: 4 <= i < |head + tail| ==> (head + tail)[i] == tail[i - 4];
    }
  }

  lemma EncodeShape(data: seq<bv8>)
    ensures forall i :: 0 <= i < |Encode(data)| ==>
              IsSymbol(Encode(data)[i]) || (i >= |Encode(data)| - 2 && Encode(data)[i] == PadChar)
    ensures IsAscii(Encode(data))
  {
    EncodeValuesShape(Values(data));
  }

  datatype DecodeError =
    | NonAsciiInput        // the text cannot be converted to ASCII bytes
    | ExcessDataCharacter  // one data character more than a multiple of four
    | IncorrectPadding     // a group of two or three characters is not closed by padding

  /** The decoder's state: the position within the current group of four
      symbols, the bits of the previous symbol not yet emitted, and the
      number of `=` seen since the last symbol. */
  datatype Quad = Quad(pos: nat, left: nat, pads: nat)

  /** Consumes a symbol of value `v`, emitting byte values.  The two parts
      of each emitted byte occupy disjoint bits, so the C code's bitwise or
      is an addition here; `% 256` is the store into an unsigned char. */
  function Step(q: Quad, v: nat, out: seq<nat>): (Quad, seq<nat>)
  {
    if q.pos == 0 then (Quad(1, v, 0), out)
    else if q.pos == 1 then (Quad(2, v % 16, 0), out + [(q.left * 4 + v / 16) % 256])
    else if q.pos == 2 then (Quad(3, v % 4, 0), out + [(q.left * 16 + v / 4) % 256])
    else (Quad(0, 0, 0), out + [(q.left * 64 + v) % 256])
  }

  /** The bytes of values below 256. */
  function Bytes(vals: seq<nat>): (data: seq<bv8>)
    ensures |data| == |vals|
  {
    seq(|vals|, i requires 0 <= i < |vals| => (vals[i] % 256) as bv8)
  }

  lemma ByteOfValue(b: bv8)
    ensures ((b as nat) % 256) as bv8 == b
  {
    assert (b as nat) % 256 == b as nat;
  }

  lemma BytesOfValues(data: seq<bv8>)
    ensures Bytes(Values(data)) == data
  {
    var vals := Values(data);
    forall i | 0 <= i < |data|
      ensures Bytes(vals)[i] == data[i]
    {
      assert vals[i] == data[i] as nat;
      ByteOfValue(data[i]);
    }
  }

  /** The decoding loop over the rest `s` of the input, from state `q` with
      the bytes `out` emitted so far. */
  function A2B(s: string, q: Quad, out: seq<nat>): (r: Result<seq<nat>, DecodeError>)
    ensures r.Failure? ==> r.error == ExcessDataCharacter || r.error == IncorrectPadding
    ensures r.Success? ==> |out| <= |r.value| && r.value[..|out|] == out
    decreases |s|
  {
    if s == [] then
      if q.pos == 0 then Success(out)
      else if q.pos == 1 then Failure(ExcessDataCharacter)
      else Failure(IncorrectPadding)
    else if s[0] == PadChar then
      if q.pos >= 2 && q.pos + q.pads + 1 >= 4 then Success(out)
      else A2B(s[1..], if q.pos >= 2 then q.(pads := q.pads + 1) else q, out)
    else if !IsSymbol(s[0]) then A2B(s[1..], q, out)
    else
      var (q', out') := Step(q, SymbolValue(s[0]), out);
      A2B(s[1..], q', out')
  }

  /** `base64.b64decode(s)`. */
  function Decode(s: string): (r: Result<seq<bv8>, DecodeError>)
    ensures r == Failure(NonAsciiInput) <==> !IsAscii(s)
  {
    if !IsAscii(s) then Failure(NonAsciiInput)
    else match A2B(s, Quad(0, 0, 0), [])
      case Success(vals) => Success(Bytes(vals))
      case Failure(e) => Failure(e)
  }

  /** Each symbol advances the position within the group by one. */
  lemma StepPosition(q: Quad, v: nat, out: seq<nat>)
    requires q.pos < 4
    ensures Step(q, v, out).0.pos == (q.pos + 1) % 4
  {
  }

  /** One step of the loop over a symbol. */
  lemma SymbolStep(s: string, q: Quad, out: seq<nat>)
    requires s != [] && IsSymbol(s[0])
    ensures A2B(s, q, out) == A2B(s[1..], Step(q, SymbolValue(s[0]), out).0, Step(q, SymbolValue(s[0]), out).1)
  {
  }

  /** Text made only of symbols is accepted exactly when it completes a
      group of four. */
  lemma {:induction false} SymbolsOnly(s: string, q: Quad, out: seq<nat>)
    requires q.pos < 4
    requires forall i :: 0 <= i < |s| ==> IsSymbol(s[i])
    ensures A2B(s, q, out).Success? <==> (q.pos + |s|) % 4 == 0
    decreases |s|
  {
    if s != [] {
      var next := Step(q, SymbolValue(s[0]), out);
      SymbolStep(s, q, out);
      StepPosition(q, SymbolValue(s[0]), out);
      SymbolsOnly(s[1..], next.0, next.1);
      PositionShift(q.pos, |s|);
    }
  }

  lemma PositionShift(p: nat, n: nat)
    requires p < 4 && n >= 1
    ensures ((p + 1) % 4 + (n - 1)) % 4 == 0 <==> (p + n) % 4 == 0
  {
    var k := (p + 1) % 4 + (n - 1);
    assert k == p + n || k == p + n - 4;
  }

  /** `b64decode` of text made only of symbols succeeds exactly when its
      length is a multiple of four. */
  lemma DecodeSymbolsOnly(s: string)
    requires forall i :: 0 <= i < |s| ==> IsSymbol(s[i])
    ensures Decode(s).Success? <==> |s| % 4 == 0
  {
    SymbolsOnly(s, Quad(0, 0, 0), []);
  }

  lemma GroupArithmetic(a: nat, b: nat, c: nat)
    requires a < 256 && b < 256 && c < 256
    ensures (a / 4 * 4 + (a % 4 * 16 + b / 16) / 16) % 256 == a
    ensures ((a % 4 * 16 + b / 16) % 16 * 16 + (b % 16 * 4 + c / 64) / 4) % 256 == b
    ensures ((b % 16 * 4 + c / 64) % 4 * 64 + c % 64) % 256 == c
  {
    var x := a % 4 * 16 + b / 16;
    Bits.DivModUnique(x, 16, a % 4, b / 16);
    Bits.DivModUnique(a, 4, a / 4, a % 4);
    var y := b % 16 * 4 + c / 64;
    Bits.DivModUnique(y, 4, b % 16, c / 64);
    Bits.DivModUnique(b, 16, b / 16, b % 16);
    Bits.DivModUnique(c, 64, c / 64, c % 64);
  }

  /** The values of a group's symbols. */
  lemma QuartetValues(a: nat, b: nat, c: nat)
    requires a < 256 && b < 256 && c < 256
    ensures var q := Quartet(a, b, c);
            SymbolValue(q[0]) == a / 4 && SymbolValue(q[1]) == a % 4 * 16 + b / 16
            && SymbolValue(q[2]) == b % 16 * 4 + c / 64 && SymbolValue(q[3]) == c % 64
  {
    SymbolRoundTrip(a / 4);
    SymbolRoundTrip(a % 4 * 16 + b / 16);
    SymbolRoundTrip(b % 16 * 4 + c / 64);
    SymbolRoundTrip(c % 64);
  }

  /** The symbols of a group, decoded from the start of a group, emit the
      group's bytes. */
  lemma QuartetSteps(a: nat, b: nat, c: nat, out: seq<nat>)
    requires a < 256 && b < 256 && c < 256
    ensures var q := Quartet(a, b, c);
            var s1 := Step(Quad(0, 0, 0), SymbolValue(q[0]), out);
            var s2 := Step(s1.0, SymbolValue(q[1]), s1.1);
            var s3 := Step(s2.0, SymbolValue(q[2]), s2.1);
            var s4 := Step(s3.0, SymbolValue(q[3]), s3.1);
            s2.1 == out + [a] && s2.0.pos == 2
            && s3.1 == out + [a, b] && s3.0.pos == 3
            && s4 == (Quad(0, 0, 0), out + [a, b, c])
  {
    var v1, v2, v3, v4 := a / 4, a % 4 * 16 + b / 16, b % 16 * 4 + c / 64, c % 64;
    QuartetValues(a, b, c);
    GroupArithmetic(a, b, c);
    var s1 := Step(Quad(0, 0, 0), v1, out);
    var s2 := Step(s1.0, v2, s1.1);
    assert s2 == (Quad(2, v2 % 16, 0), out + [a]);
    var s3 := Step(s2.0, v3, s2.1);
    assert s3 == (Quad(3, v3 % 4, 0), out + [a] + [b]);
    assert out + [a] + [b] + [c] == out + [a, b, c];
  }

  /** A complete group of four symbols emits its three bytes. */
  lemma DecodeQuartet(a: nat, b: nat, c: nat, rest: string, out: seq<nat>)
    requires a < 256 && b < 256 && c < 256
    ensures A2B(Quartet(a, b, c) + rest, Quad(0, 0, 0), out)
            == A2B(rest, Quad(0, 0, 0), out + [a, b, c])
  {
    var q := Quartet(a, b, c);
    QuartetSteps(a, b, c, out);
    var t := q + rest;
    var s1 := Step(Quad(0, 0, 0), SymbolValue(q[0]), out);
    var s2 := Step(s1.0, SymbolValue(q[1]), s1.1);
    var s3 := Step(s2.0, SymbolValue(q[2]), s2.1);
    SymbolStep(t, Quad(0, 0, 0), out);
    SymbolStep(t[1..], s1.0, s1.1);
    SymbolStep(t[2..], s2.0, s2.1);
    SymbolStep(t[3..], s3.0, s3.1);
    assert t[1..][1..] == t[2..] && t[2..][1..] == t[3..] && t[3..][1..] == rest;
  }

  /** A final group of one byte: two symbols and two `=`. */
  lemma DecodeLastOne(a: nat, out: seq<nat>)
    requires a < 256
    ensures A2B(Quartet(a, 0, 0)[..2] + [PadChar, PadChar], Quad(0, 0, 0), out) == Success(out + [a])
  {
    var q := Quartet(a, 0, 0);
    QuartetSteps(a, 0, 0, out);
    var t := q[..2] + [PadChar, PadChar];
    var s1 := Step(Quad(0, 0, 0), SymbolValue(q[0]), out);
    var s2 := Step(s1.0, SymbolValue(q[1]), s1.1);
    SymbolStep(t, Quad(0, 0, 0), out);
    SymbolStep(t[1..], s1.0, s1.1);
    assert t[1..][1..] == [PadChar, PadChar];
    assert [PadChar, PadChar][1..] == [PadChar];
  }

  /** A final group of two bytes: three symbols and one `=`. */
  lemma DecodeLastTwo(a: nat, b: nat, out: seq<nat>)
    requires a < 256 && b < 256
    ensures A2B(Quartet(a, b, 0)[..3] + [PadChar], Quad(0, 0, 0), out) == Success(out + [a, b])
  {
    var q := Quartet(a, b, 0);
    QuartetSteps(a, b, 0, out);
    var t := q[..3] + [PadChar];
    var s1 := Step(Quad(0, 0, 0), SymbolValue(q[0]), out);
    var s2 := Step(s1.0, SymbolValue(q[1]), s1.1);
    SymbolStep(t, Quad(0, 0, 0), out);
    SymbolStep(t[1..], s1.0, s1.1);
    SymbolStep(t[2..], s2.0, s2.1);
    assert t[1..][1..] == t[2..] && t[2..][1..] == [PadChar];
  }
  lemma {:induction false} DecodeEncodeFrom(data: seq<bv8>, out: seq<nat>)
    ensures A2B(Encode(data), Quad(0, 0, 0), out) == Success(out + Values(data))
    decreases |data|
  {
    var vals := Values(data);
    if |data| == 1 {
      DecodeLastOne(vals[0], out);
      assert [vals[0]] == vals;
    } else if |data| == 2 {
      DecodeLastTwo(vals[0], vals[1], out);
      assert [vals[0], vals[1]] == vals;
    } else if |data| > 2 {
      assert vals[3..] == Values(data[3..]);
      DecodeQuartet(vals[0], vals[1], vals[2], Encode(data[3..]), out);
      DecodeEncodeFrom(data[3..], out + [vals[0], vals[1], vals[2]]);
      Regroup(out, vals);
    } else {
      assert out + vals == out;
    }
  }

  lemma Regroup(out: seq<nat>, vals: seq<nat>)
    requires |vals| >= 3
    ensures out + [vals[0], vals[1], vals[2]] + vals[3..] == out + vals
  {
    assert [vals[0], vals[1], vals[2]] + vals[3..] == vals;
  }

  /** Decoding an encoding gives back the bytes. */
  lemma DecodeEncode(data: seq<bv8>)
    ensures Decode(Encode(data)) == Success(data)
  {
    EncodeShape(data);
    DecodeEncodeFrom(data, []);
    assert [] + Values(data) == Values(data);
    BytesOfValues(data);
  }

  /** Encoding works group by group: bytes split after a whole number of
      groups encode to the concatenation of the two encodings. */
  lemma {:induction false} EncodeValuesAppend(u: seq<nat>, v: seq<nat>)
    requires forall i :: 0 <= i < |u| ==> u[i] < 256
    requires forall i :: 0 <= i < |v| ==> v[i] < 256
    requires |u| % 3 == 0
    ensures EncodeValues(u + v) == EncodeValues(u) + EncodeValues(v)
    decreases |u|
  {
    if u == [] {
      assert u + v == v;
    } else {
      var w := u + v;
      assert w[0] == u[0] && w[1] == u[1] && w[2] == u[2];
      assert w[3..] == u[3..] + v;
      EncodeValuesAppend(u[3..], v);
    }
  }

  lemma EncodeAppend(a: seq<bv8>, b: seq<bv8>)
    requires |a| % 3 == 0
    ensures Encode(a + b) == Encode(a) + Encode(b)
  {
    assert Values(a + b) == Values(a) + Values(b);
    EncodeValuesAppend(Values(a), Values(b));
  }
}
