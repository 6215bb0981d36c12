/** The Base32 encoding of section 6 of RFC 4648, as Python's
    `base64.b32encode` and `base64.b32decode(s, casefold=True)` implement it:
    every 40 bits of input become eight symbols of `A-Z2-7`, a final partial
    group is filled with zero bits, and the text is padded with `=` to a
    multiple of eight characters. */
module Base32 {
  import opened Wrappers
  import opened Text
  import Bits

  const PadChar: char := '='

  predicate IsSymbol(c: char)
  {
    'A' <= c <= 'Z' || '2' <= c <= '7'
  }

  /** The symbol of value `v` in the alphabet of section 6 of RFC 4648. */
  function Symbol(v: nat): (c: char)
    requires v < 32
    ensures IsSymbol(c)
  {
    if v < 26 then ('A' as int + v) as char else ('2' as int + v - 26) as char
  }

  function SymbolValue(c: char): (v: nat)
    requires IsSymbol(c)
    ensures v < 32 && Symbol(v) == c
  {
    if 'A' <= c then c as int - 'A' as int else c as int - '2' as int + 26
  }

  /** The 32 symbols in value order. */
  const Alphabet: string := "ABCDEFGHIJKLMNOPQRSTUVWXYZ234567"

  lemma AlphabetSymbols(c: char)
    ensures c in Alphabet <==> IsSymbol(c)
    ensures |Alphabet| == 32 && forall v :: 0 <= v < 32 ==> Alphabet[v] == Symbol(v)
  {
  }

  predicate AllSymbols(s: string)
  {
    forall i :: 0 <= i < |s| ==> IsSymbol(s[i])
  }

  function ByteValues(data: seq<bv8>): (vals: seq<nat>)
    ensures |vals| == |data| && Bits.Fits(vals, 8)
  {
    assert Bits.Pow2(8) == 256;
    seq(|data|, i requires 0 <= i < |data| => data[i] as nat)
  }

  function ToBytes(vals: seq<nat>): (data: seq<bv8>)
    requires Bits.Fits(vals, 8)
    ensures |data| == |vals|
  {
    assert Bits.Pow2(8) == 256;
    seq(|vals|, i requires 0 <= i < |vals| => vals[i] as bv8)
  }

  lemma BytesRoundTrip(data: seq<bv8>)
    ensures ToBytes(ByteValues(data)) == data
  {
  }

  /** Zero bits that complete `n` bits to a whole number of symbols. */
  function FillCount(n: nat): nat
  {
    (5 - n % 5) % 5
  }

  /** Number of symbols that carry `n` bytes: the ceiling of 8n/5. */
  function SymbolCount(n: nat): nat
  {
    (8 * n + 4) / 5
  }

  lemma FillArithmetic(n: nat)
    ensures (8 * n + FillCount(8 * n)) % 5 == 0
    ensures (8 * n + FillCount(8 * n)) / 5 == SymbolCount(n)
    ensures 5 * SymbolCount(n) / 8 == n
  {
    var q, r := n / 5, n % 5;
    assert n == 5 * q + r;
    var k := 8 * r;
    Bits.DivModUnique(8 * n, 5, 8 * q + k / 5, k % 5);
    var fill := FillCount(8 * n);
    Bits.DivModUnique(8 * n + fill, 5, 8 * q + (k + fill) / 5, 0);
    Bits.DivModUnique(8 * n + 4, 5, 8 * q + (k + 4) / 5, (k + 4) % 5);
    var c := SymbolCount(n);
    Bits.DivModUnique(5 * c, 8, n, 5 * c - 8 * n);
  }

  /** The 5-bit values the symbols of `data` stand for. */
  function Quintets(data: seq<bv8>): (q: seq<nat>)
    ensures |q| == SymbolCount(|data|) && Bits.Fits(q, 5)
  {
    var bits := Bits.Join(ByteValues(data), 8);
    FillArithmetic(|data|);
    Bits.Split(bits + Bits.Zeros(FillCount(|bits|)), 5)
  }

  function Symbols(q: seq<nat>): (s: string)
    requires Bits.Fits(q, 5)
    ensures |s| == |q| && AllSymbols(s)
  {
    assert Bits.Pow2(5) == 32;
    seq(|q|, i requires 0 <= i < |q| => Symbol(q[i]))
  }

  function SymbolValues(s: string): (q: seq<nat>)
    requires AllSymbols(s)
    ensures |q| == |s| && Bits.Fits(q, 5)
  {
    assert Bits.Pow2(5) == 32;
    seq(|s|, i requires 0 <= i < |s| => SymbolValue(s[i]))
  }

  /** Number of `=` characters that complete `n` characters to a multiple
      of eight. */
  function PadCount(n: nat): (p: nat)
    ensures p < 8 && (n + p) % 8 == 0
  {
    (8 - n % 8) % 8
  }

  /** `base64.b32encode`. */
  function Encode(data: seq<bv8>): (s: string)
    ensures |s| % 8 == 0
  {
    var syms := Symbols(Quintets(data));
    syms + Repeat(PadChar, PadCount(|syms|))
  }

  /** The bytes carried by symbol values `q`; bits left over after the last
      whole byte are dropped, as `base64.b32decode` drops them. */
  function FromQuintets(q: seq<nat>): (data: seq<bv8>)
    requires Bits.Fits(q, 5)
    ensures |data| == 5 * |q| / 8
  {
    var bits := Bits.Join(q, 5);
    var whole := bits[..8 * (|bits| / 8)];
    ToBytes(Bits.Split(whole, 8))
  }

  datatype DecodeError =
    | NonAsciiInput     // the text cannot be converted to ASCII bytes
    | IncorrectPadding  // length or number of trailing `=` impossible
    | NonAlphabetDigit  // a character outside the alphabet before the padding

  /** Numbers of trailing `=` that a well-formed final group can carry. */
  predicate ValidPadding(padChars: nat)
  {
    padChars == 0 || padChars == 1 || padChars == 3 || padChars == 4 || padChars == 6
  }

  /** `base64.b32decode(s, casefold=True)`: text that is not ASCII, or
      whose length is not a multiple of eight, is refused; otherwise, after
      upper-casing, everything before the trailing `=` must be symbols, and
      the number of `=` must be one a final group can carry. */
  function Decode(s: string): (r: Result<seq<bv8>, DecodeError>)
    ensures !IsAscii(s) ==> r == Failure(NonAsciiInput)
    ensures IsAscii(s) && |s| % 8 != 0 ==> r == Failure(IncorrectPadding)
    ensures IsAscii(s) && |s| % 8 == 0 && !AllSymbols(RStrip(Upper(s), PadChar)) ==>
              r == Failure(NonAlphabetDigit)
    ensures IsAscii(s) && |s| % 8 == 0 && AllSymbols(RStrip(Upper(s), PadChar)) ==>
              (r.Success? <==> ValidPadding(|s| - |RStrip(Upper(s), PadChar)|))
    ensures r.Failure? && IsAscii(s) && AllSymbols(RStrip(Upper(s), PadChar)) ==>
              r.error == IncorrectPadding
    ensures r.Success? ==> IsAscii(s) && |s| % 8 == 0
    ensures IsAscii(s) && |s| % 8 == 0 && AllSymbols(Upper(s)) ==>
              r.Success? && |r.value| == 5 * |s| / 8
  {
    if !IsAscii(s) then Failure(NonAsciiInput)
    else if |s| % 8 != 0 then Failure(IncorrectPadding)
    else
      var u := Upper(s);
      if AllSymbols(u) then
        DecodeQuantaPadded(u, 0);
        assert u + Repeat(PadChar, 0) == u;
        DecodeQuanta(u)
      else DecodeQuanta(u)
  }

  /** Decoding restated for a caller that knows the text before the trailing
      `=` and how many `=` follow it. */
  lemma DecodeStripped(s: string, body: string, pads: nat)
    requires IsAscii(s) && |s| % 8 == 0
    requires RStrip(Upper(s), PadChar) == body && pads == |s| - |body|
    ensures !AllSymbols(body) ==> Decode(s) == Failure(NonAlphabetDigit)
    ensures AllSymbols(body) ==> (Decode(s).Success? <==> ValidPadding(pads))
    ensures Decode(s).Failure? && AllSymbols(body) ==> Decode(s).error == IncorrectPadding
  {
  }

  /** The decoding of upper-cased text whose length is a multiple of eight:
      the trailing `=` are counted and stripped, what precedes them must be
      symbols, and the count must be one a final group can carry. */
  function DecodeQuanta(u: string): (r: Result<seq<bv8>, DecodeError>)
    ensures !AllSymbols(RStrip(u, PadChar)) ==> r == Failure(NonAlphabetDigit)
    ensures AllSymbols(RStrip(u, PadChar)) ==>
              (r.Success? <==> ValidPadding(|u| - |RStrip(u, PadChar)|))
    ensures r.Failure? && AllSymbols(RStrip(u, PadChar)) ==> r.error == IncorrectPadding
  {
    var body := RStrip(u, PadChar);
    if !AllSymbols(body) then Failure(NonAlphabetDigit)
    else if !ValidPadding(|u| - |body|) then Failure(IncorrectPadding)
    else Success(FromQuintets(SymbolValues(body)))
  }

  /** Symbol counts of encoded byte strings end in a residue modulo 8 that
      leaves room for a valid amount of padding. */
  lemma SymbolCountResidue(n: nat)
    ensures ValidPadding(PadCount(SymbolCount(n)))
    ensures SymbolCount(n) % 8 in {0, 2, 4, 5, 7}
  {
    var q := n / 5;
    assert n == 5 * q + n % 5;
    assert 8 * n + 4 == 40 * q + 8 * (n % 5) + 4;
  }

  lemma {:induction false} SymbolValuesOfSymbols(q: seq<nat>)
    requires Bits.Fits(q, 5)
    ensures SymbolValues(Symbols(q)) == q
  {
    assert Bits.Pow2(5) == 32;
  }

  lemma {:induction false} FromQuintetsOfQuintets(data: seq<bv8>)
    ensures FromQuintets(Quintets(data)) == data
  {
    var vals := ByteValues(data);
    var bits := Bits.Join(vals, 8);
    FillArithmetic(|data|);
    var filled := bits + Bits.Zeros(FillCount(|bits|));
    Bits.JoinSplit(filled, 5);
    var whole := filled[..8 * (|filled| / 8)];
    assert |filled| / 8 == |data|;
    assert whole == bits;
    Bits.SplitJoin(vals, 8);
    BytesRoundTrip(data);
  }

  /** The encoding is the symbols followed by nothing but padding. */
  lemma EncodeShape(data: seq<bv8>)
    ensures RStrip(Encode(data), PadChar) == Symbols(Quintets(data))
    ensures Encode(data) == Symbols(Quintets(data)) + Repeat(PadChar, PadCount(|Quintets(data)|))
  {
    var syms := Symbols(Quintets(data));
    RStripAppended(syms, PadChar, PadCount(|syms|));
  }

  lemma PaddedAscii(t: string, p: nat)
    requires IsAscii(t)
    ensures IsAscii(t + Repeat(PadChar, p))
    ensures Upper(t + Repeat(PadChar, p)) == Upper(t) + Repeat(PadChar, p)
  {
    var padded := t + Repeat(PadChar, p);
    assert forall i :: 0 <= i < |padded| ==> padded[i] == if i < |t| then t[i] else PadChar;
  }

  lemma {:induction false} DecodeQuantaPadded(t: string, p: nat)
    requires AllSymbols(t)
    ensures DecodeQuanta(t + Repeat(PadChar, p)) ==
              if ValidPadding(p) then Success(FromQuintets(SymbolValues(t))) else Failure(IncorrectPadding)
  {
    RStripAppended(t, PadChar, p);
  }

  /** Text whose upper-case form is all symbols, followed by `p` padding
      characters, decodes exactly when `p` is a valid amount of padding. */
  lemma {:induction false} DecodePadded(t: string, p: nat)
    requires IsAscii(t) && AllSymbols(Upper(t)) && (|t| + p) % 8 == 0
    ensures Decode(t + Repeat(PadChar, p)).Success? <==> ValidPadding(p)
    ensures Decode(t + Repeat(PadChar, p)).Success? ==> |Decode(t + Repeat(PadChar, p)).value| == 5 * |t| / 8
  {
    PaddedAscii(t, p);
    DecodeQuantaPadded(Upper(t), p);
  }

  lemma SymbolsAreUpper(t: string)
    requires AllSymbols(t)
    ensures IsAscii(t) && Upper(t) == t
  {
  }

  /** Symbols followed by a valid amount of padding decode to the bytes the
      symbols carry. */
  lemma {:induction false} DecodeSymbolsPadded(t: string, p: nat)
    requires AllSymbols(t) && (|t| + p) % 8 == 0 && ValidPadding(p)
    ensures Decode(t + Repeat(PadChar, p)) == Success(FromQuintets(SymbolValues(t)))
  {
    SymbolsAreUpper(t);
    PaddedAscii(t, p);
    DecodeQuantaPadded(t, p);
  }

  /** Decoding what `Encode` produced gives back the bytes. */
  lemma {:induction false} DecodeEncode(data: seq<bv8>)
    ensures Decode(Encode(data)) == Success(data)
  {
    var q := Quintets(data);
    var syms := Symbols(q);
    var p := PadCount(|syms|);
    EncodeShape(data);
    assert Encode(data) == syms + Repeat(PadChar, p);
    SymbolCountResidue(|data|);
    assert ValidPadding(p);
    DecodeSymbolsPadded(syms, p);
    SymbolValuesOfSymbols(q);
    assert Decode(Encode(data)) == Success(FromQuintets(q));
    FromQuintetsOfQuintets(data);
  }
}
