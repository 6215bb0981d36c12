/** The helpers of `encoding_utils.py`: unpadded Base32 text, session
    identifiers cut from random bytes, and short Base32 checksums derived
    from a CRC-32.  The CRC-32 function and the random bytes are inputs. */
module EncodingUtils {
  import opened Wrappers
  import opened Text
  import Bits
  import Base32

  /** `encode_base32_no_padding`: the Base32 text of `data` without its
      trailing `=`. */
  function EncodeNoPadding(data: seq<bv8>): (s: string)
    ensures |s| == Base32.SymbolCount(|data|)
    ensures Base32.AllSymbols(s)
    ensures Base32.Encode(data) == s + Repeat(Base32.PadChar, Base32.PadCount(|s|))
  {
    Base32.EncodeShape(data);
    RStrip(Base32.Encode(data), Base32.PadChar)
  }

  /** `encoded` followed by the `=` characters that complete it to a multiple
      of eight characters. */
  function PadToQuantum(encoded: string): (padded: string)
    ensures |encoded| <= |padded| < |encoded| + 8 && |padded| % 8 == 0
    ensures padded[..|encoded|] == encoded
    ensures forall i :: |encoded| <= i < |padded| ==> padded[i] == Base32.PadChar
  {
    encoded + Repeat(Base32.PadChar, (8 - |encoded| % 8) % 8)
  }

  lemma PadToQuantumIsPadCount(s: string)
    ensures PadToQuantum(s) == s + Repeat(Base32.PadChar, Base32.PadCount(|s|))
  {
  }

  /** `decode_base32_no_padding`: the text completed with `=` to a multiple
      of eight characters and decoded.  Text that is not ASCII, text with a
      character outside the alphabet before its trailing `=`, and text whose
      completed padding no final group carries are refused. */
  function DecodeNoPadding(encoded: string): (r: Result<seq<bv8>, Base32.DecodeError>)
    ensures !IsAscii(encoded) ==> r == Failure(Base32.NonAsciiInput)
    ensures IsAscii(encoded) && !Base32.AllSymbols(RStrip(Upper(encoded), Base32.PadChar)) ==>
              r == Failure(Base32.NonAlphabetDigit)
    ensures IsAscii(encoded) && Base32.AllSymbols(RStrip(Upper(encoded), Base32.PadChar)) && r.Success? ==>
              Base32.ValidPadding(|PadToQuantum(encoded)| - |RStrip(Upper(encoded), Base32.PadChar)|)
    ensures IsAscii(encoded) && Base32.AllSymbols(RStrip(Upper(encoded), Base32.PadChar)) &&
            Base32.ValidPadding(|PadToQuantum(encoded)| - |RStrip(Upper(encoded), Base32.PadChar)|) ==>
              r.Success?
    ensures r.Failure? && IsAscii(encoded) && Base32.AllSymbols(RStrip(Upper(encoded), Base32.PadChar)) ==>
              r.error == Base32.IncorrectPadding
    ensures IsAscii(encoded) && Base32.AllSymbols(Upper(encoded)) ==>
              (r.Success? <==> |encoded| % 8 in {0, 2, 4, 5, 7})
    ensures IsAscii(encoded) && Base32.AllSymbols(Upper(encoded)) && r.Success? ==>
              |r.value| == 5 * |encoded| / 8
  {
    var padded := PadToQuantum(encoded);
    PaddedIsAscii(encoded);
    if IsAscii(encoded) then
      PaddedDecode(encoded);
      if Base32.AllSymbols(Upper(encoded)) then
        SymbolTextPadded(encoded);
        Base32.Decode(padded)
      else
        Base32.Decode(padded)
    else
      Base32.Decode(padded)
  }

  /** How completed ASCII text decodes, in terms of the text before its
      trailing `=`. */
  lemma PaddedDecode(encoded: string)
    requires IsAscii(encoded)
    ensures !Base32.AllSymbols(RStrip(Upper(encoded), Base32.PadChar)) ==>
              Base32.Decode(PadToQuantum(encoded)) == Failure(Base32.NonAlphabetDigit)
    ensures Base32.AllSymbols(RStrip(Upper(encoded), Base32.PadChar)) && Base32.Decode(PadToQuantum(encoded)).Success? ==>
              Base32.ValidPadding(|PadToQuantum(encoded)| - |RStrip(Upper(encoded), Base32.PadChar)|)
    ensures Base32.AllSymbols(RStrip(Upper(encoded), Base32.PadChar)) &&
            Base32.ValidPadding(|PadToQuantum(encoded)| - |RStrip(Upper(encoded), Base32.PadChar)|) ==>
              Base32.Decode(PadToQuantum(encoded)).Success?
    ensures Base32.Decode(PadToQuantum(encoded)).Failure? && Base32.AllSymbols(RStrip(Upper(encoded), Base32.PadChar)) ==>
              Base32.Decode(PadToQuantum(encoded)).error == Base32.IncorrectPadding
  {
    var padded := PadToQuantum(encoded);
    var body := RStrip(Upper(encoded), Base32.PadChar);
    PaddedIsAscii(encoded);
    PaddedStrip(encoded);
    Base32.DecodeStripped(padded, body, |padded| - |body|);
  }

  /** Completing ASCII text with `=` leaves the same text before the
      trailing `=` once upper-cased. */
  lemma PaddedStrip(encoded: string)
    requires IsAscii(encoded)
    ensures RStrip(Upper(PadToQuantum(encoded)), Base32.PadChar) == RStrip(Upper(encoded), Base32.PadChar)
  {
    var p := (8 - |encoded| % 8) % 8;
    assert PadToQuantum(encoded) == encoded + Repeat(Base32.PadChar, p);
    Base32.PaddedAscii(encoded, p);
    RStripPadded(Upper(encoded), Base32.PadChar, p);
  }

  lemma SymbolTextPadded(encoded: string)
    requires IsAscii(encoded) && Base32.AllSymbols(Upper(encoded))
    ensures Base32.Decode(PadToQuantum(encoded)).Success? <==> |encoded| % 8 in {0, 2, 4, 5, 7}
    ensures Base32.Decode(PadToQuantum(encoded)).Success? ==>
              |Base32.Decode(PadToQuantum(encoded)).value| == 5 * |encoded| / 8
  {
    var p := (8 - |encoded| % 8) % 8;
    assert PadToQuantum(encoded) == encoded + Repeat(Base32.PadChar, p);
    Base32.DecodePadded(encoded, p);
    PadResidue(|encoded|);
  }

  /** The `=` that complete `n` characters to a multiple of eight are a
      valid amount exactly for these residues of `n`. */
  lemma PadResidue(n: nat)
    ensures Base32.ValidPadding((8 - n % 8) % 8) <==> n % 8 in {0, 2, 4, 5, 7}
  {
    var r := n % 8;
    assert 0 <= r < 8;
    assert (8 - r) % 8 == if r == 0 then 0 else 8 - r;
  }

  lemma PaddedIsAscii(s: string)
    ensures IsAscii(PadToQuantum(s)) <==> IsAscii(s)
  {
    assert forall i :: 0 <= i < |s| ==> PadToQuantum(s)[i] == s[i];
  }

  /** Decoding the unpadded text of any byte string gives the bytes back. */
  lemma RoundTrip(data: seq<bv8>)
    ensures DecodeNoPadding(EncodeNoPadding(data)) == Success(data)
  {
    var s := EncodeNoPadding(data);
    PadToQuantumIsPadCount(s);
    Base32.DecodeEncode(data);
  }

  lemma UpperOfLower(s: string)
    ensures Upper(Lower(s)) == Upper(s)
    ensures IsAscii(Lower(s)) <==> IsAscii(s)
  {
    assert forall i :: 0 <= i < |s| ==> (Lower(s)[i] as int < 128 <==> s[i] as int < 128);
  }

  /** Decoding is insensitive to the case of the letters. */
  lemma {:induction false} DecodeIgnoresCase(encoded: string)
    ensures DecodeNoPadding(Lower(encoded)) == DecodeNoPadding(encoded)
  {
    var p := (8 - |encoded| % 8) % 8;
    var a := PadToQuantum(Lower(encoded));
    var b := PadToQuantum(encoded);
    UpperOfLower(encoded);
    assert Upper(a) == Upper(Lower(encoded)) + Repeat(Base32.PadChar, p);
    assert Upper(b) == Upper(encoded) + Repeat(Base32.PadChar, p);
    assert IsAscii(a) <==> IsAscii(b);
  }

  /** Python's `c.upper()` where that is a single Base32 symbol, and `c`
      itself otherwise.  Besides the ASCII lower-case letters exactly two
      characters upper-case to a symbol: U+0131 (dotless i) to `I` and U+017F
      (long s) to `S`. */
  function UpperToSymbol(c: char): char
  {
    if 'a' <= c <= 'z' then UpperChar(c)
    else if c == '\U{131}' then 'I'
    else if c == '\U{17F}' then 'S'
    else c
  }

  /** `is_valid_base32`: every character upper-cases to a member of the
      alphabet. */
  function IsValidBase32(s: string): (ok: bool)
    ensures ok <==> forall i :: 0 <= i < |s| ==> Base32.IsSymbol(UpperToSymbol(s[i]))
    ensures IsAscii(s) ==> (ok <==> Base32.AllSymbols(Upper(s)))
  {
    AlphabetIsSymbols();
    forall i :: 0 <= i < |s| ==> UpperToSymbol(s[i]) in Base32.Alphabet
  }

  lemma AlphabetIsSymbols()
    ensures forall c :: c in Base32.Alphabet <==> Base32.IsSymbol(c)
  {
    forall c
      ensures c in Base32.Alphabet <==> Base32.IsSymbol(c)
    {
      Base32.AlphabetSymbols(c);
    }
  }

  /** On ASCII text the validity check agrees with the decoder's own
      alphabet, so valid text decodes exactly when its length leaves room for
      valid padding: a residue of 0, 2, 4, 5 or 7 modulo 8. */
  lemma {:induction false} ValidTextDecodes(s: string)
    requires IsAscii(s)
    ensures IsValidBase32(s) <==> Base32.AllSymbols(Upper(s))
    ensures IsValidBase32(s) ==>
              (DecodeNoPadding(s).Success? <==> |s| % 8 in {0, 2, 4, 5, 7})
  {
    forall i | 0 <= i < |s|
      ensures UpperToSymbol(s[i]) in Base32.Alphabet <==> Base32.IsSymbol(Upper(s)[i])
    {
      Base32.AlphabetSymbols(UpperToSymbol(s[i]));
    }
    if Base32.AllSymbols(Upper(s)) {
      SymbolTextDecodes(s);
    }
  }

  lemma {:induction false} SymbolTextDecodes(s: string)
    requires IsAscii(s) && Base32.AllSymbols(Upper(s))
    ensures DecodeNoPadding(s).Success? <==> |s| % 8 in {0, 2, 4, 5, 7}
  {
    var p := (8 - |s| % 8) % 8;
    assert PadToQuantum(s) == s + Repeat(Base32.PadChar, p);
    Base32.DecodePadded(s, p);
  }

  /** Every unpadded encoding passes the validity check. */
  lemma EncodedTextIsValid(data: seq<bv8>)
    ensures IsValidBase32(EncodeNoPadding(data))
  {
    var s := EncodeNoPadding(data);
    assert forall i :: 0 <= i < |s| ==> UpperToSymbol(s[i]) == s[i];
  }

  /** Number of random bytes `generate_session_id` draws for `length`
      characters. */
  function BytesNeeded(length: nat): nat
  {
    (length * 5 + 7) / 8
  }

  /** `generate_session_id`, with the random bytes as an input. */
  function GenerateSessionId(length: nat, random: seq<bv8>): (id: string)
    requires |random| == BytesNeeded(length)
    ensures |id| == length && Base32.AllSymbols(id)
    ensures id == EncodeNoPadding(random)[..length]
  {
    var encoded := EncodeNoPadding(random);
    assert |encoded| >= length;
    Upper(Prefix(encoded, length))
  }

  /** Values of a CRC-32 as Python's `zlib.crc32` returns them. */
  type Crc32 = x: nat | x < 0x1_0000_0000

  /** The CRC-32 of `data` masked to its low 16 bits, as two big-endian
      bytes. */
  function Crc16Bytes(crc: Crc32): (b: seq<bv8>)
    ensures |b| == 2
    ensures b[0] as int * 256 + b[1] as int == crc % 0x1_0000
  {
    var m := crc % 0x1_0000;
    ByteRoundTrip(m / 256);
    ByteRoundTrip(m % 256);
    [(m / 256) as bv8, (m % 256) as bv8]
  }

  lemma ByteRoundTrip(x: nat)
    requires x < 256
    ensures (x as bv8) as int == x
  {
    var b := ByteCount(x);
    assert (b as nat) as bv8 == b;
  }

  /** The byte with value `x`, counted up from zero. */
  function ByteCount(x: nat): (b: bv8)
    requires x < 256
    ensures b as int == x
  {
    if x == 0 then 0 else ByteCount(x - 1) + 1
  }

  /** The four-symbol Base32 form of the masked CRC. */
  function CrcCode(crc: Crc32): (code: string)
    ensures |code| == 4 && Base32.AllSymbols(code)
  {
    EncodeNoPadding(Crc16Bytes(crc))
  }

  /** `code` filled with `A` to `length` characters when it is shorter, then
      cut to `length` characters by Python's slice rules, which count a
      negative `length` back from the end. */
  function FillAndCut(code: string, length: int): (r: string)
    requires |code| == 4 && Base32.AllSymbols(code)
    ensures length >= 0 ==> |r| == length
    ensures length < 0 ==> |r| == if length >= -4 then 4 + length else 0
    ensures Base32.AllSymbols(r)
    ensures forall i :: 0 <= i < |r| && i < 4 ==> r[i] == code[i]
    ensures forall i :: 4 <= i < |r| ==> r[i] == 'A'
  {
    var filled := if |code| < length then LJust(code, length, 'A') else code;
    Prefix(filled, length)
  }

  /** The checksum text for a given CRC-32 value. */
  function ChecksumText(crc: Crc32, length: int): (r: string)
    ensures r == FillAndCut(CrcCode(crc), length)
  {
    var cut := FillAndCut(CrcCode(crc), length);
    Base32.SymbolsAreUpper(cut);
    Upper(cut)
  }

  function AsciiBytes(s: string): (b: seq<bv8>)
    requires IsAscii(s)
    ensures |b| == |s|
  {
    seq(|s|, i requires 0 <= i < |s| => s[i] as int as bv8)
  }

  /** `calculate_checksum`; `None` when `data` is not ASCII, where the
      source raises on `data.encode("ascii")`. */
  function CalculateChecksum(data: string, length: int, crc32: seq<bv8> -> Crc32): (r: Option<string>)
    ensures r.Some? <==> IsAscii(data)
    ensures r.Some? && length >= 0 ==> |r.value| == length
    ensures r.Some? ==> Base32.AllSymbols(r.value)
    ensures r.Some? && length > 4 ==> r.value[4..] == Repeat('A', length - 4)
  {
    if IsAscii(data) then Some(ChecksumText(crc32(AsciiBytes(data)), length)) else None
  }

  /** The checksum depends on the data only through the low 16 bits of its
      CRC-32. */
  lemma ChecksumOfLow16(d1: string, d2: string, length: int, f: seq<bv8> -> Crc32, g: seq<bv8> -> Crc32)
    requires IsAscii(d1) && IsAscii(d2)
    requires f(AsciiBytes(d1)) % 0x1_0000 == g(AsciiBytes(d2)) % 0x1_0000
    ensures CalculateChecksum(d1, length, f) == CalculateChecksum(d2, length, g)
  {
    assert Crc16Bytes(f(AsciiBytes(d1))) == Crc16Bytes(g(AsciiBytes(d2)));
  }

  /** From the fourth character on, the checksum determines the low 16 bits
      of the CRC-32: two checksums of that length agree only when those bits
      do. */
  lemma ChecksumDeterminesLow16(d1: string, d2: string, length: int, f: seq<bv8> -> Crc32, g: seq<bv8> -> Crc32)
    requires IsAscii(d1) && IsAscii(d2) && length >= 4
    requires CalculateChecksum(d1, length, f) == CalculateChecksum(d2, length, g)
    ensures f(AsciiBytes(d1)) % 0x1_0000 == g(AsciiBytes(d2)) % 0x1_0000
  {
    var c1, c2 := f(AsciiBytes(d1)), g(AsciiBytes(d2));
    CrcCodeFromChecksum(c1, length);
    CrcCodeFromChecksum(c2, length);
    RoundTrip(Crc16Bytes(c1));
    RoundTrip(Crc16Bytes(c2));
    assert Crc16Bytes(c1) == Crc16Bytes(c2);
  }

  lemma CrcCodeFromChecksum(crc: Crc32, length: int)
    requires length >= 4
    ensures ChecksumText(crc, length)[..4] == CrcCode(crc)
  {
  }

  /** Python's `s.upper()` where the result is compared with a string of
      Base32 symbols. */
  function UpperToSymbols(s: string): (r: string)
    ensures |r| == |s|
  {
    seq(|s|, i requires 0 <= i < |s| => UpperToSymbol(s[i]))
  }

  /** `validate_checksum`; `None` when `data` is not ASCII. */
  function ValidateChecksum(data: string, checksum: string, crc32: seq<bv8> -> Crc32): (r: Option<bool>)
    ensures r.Some? <==> IsAscii(data)
  {
    match CalculateChecksum(data, |checksum|, crc32)
    case None => None
    case Some(expected) => Some(Upper(expected) == UpperToSymbols(checksum))
  }

  /** Recomputing a checksum at its own length reproduces it. */
  lemma ChecksumAtOwnLength(crc: Crc32, length: int)
    ensures ChecksumText(crc, |ChecksumText(crc, length)|) == ChecksumText(crc, length)
  {
    var code := CrcCode(crc);
    var a := FillAndCut(code, length);
    var b := FillAndCut(code, |a|);
    assert |b| == |a|;
    assert forall i :: 0 <= i < |a| ==> a[i] == b[i];
  }

  /** A freshly calculated checksum validates, in upper or lower case. */
  lemma {:induction false} ChecksumValidates(data: string, length: int, crc32: seq<bv8> -> Crc32)
    requires IsAscii(data)
    ensures ValidateChecksum(data, CalculateChecksum(data, length, crc32).value, crc32) == Some(true)
    ensures ValidateChecksum(data, Lower(CalculateChecksum(data, length, crc32).value), crc32) == Some(true)
  {
    var c := CalculateChecksum(data, length, crc32).value;
    ChecksumAtOwnLength(crc32(AsciiBytes(data)), length);
    assert CalculateChecksum(data, |c|, crc32) == Some(c);
    SymbolsUpperUnchanged(c);
    assert |Lower(c)| == |c|;
    assert CalculateChecksum(data, |Lower(c)|, crc32) == Some(c);
  }

  /** A checksum of four or more characters calculated for one data string
      validates another exactly when their CRC-32 values agree in the low 16
      bits: the comparison rejects every other checksum. */
  lemma ChecksumCrossValidates(d1: string, d2: string, length: int, crc32: seq<bv8> -> Crc32)
    requires IsAscii(d1) && IsAscii(d2) && length >= 4
    ensures ValidateChecksum(d2, CalculateChecksum(d1, length, crc32).value, crc32)
            == Some(crc32(AsciiBytes(d1)) % 0x1_0000 == crc32(AsciiBytes(d2)) % 0x1_0000)
  {
    var c := CalculateChecksum(d1, length, crc32).value;
    var e := CalculateChecksum(d2, length, crc32).value;
    assert |c| == length;
    SymbolsUpperUnchanged(c);
    SymbolsUpperUnchanged(e);
    if crc32(AsciiBytes(d1)) % 0x1_0000 == crc32(AsciiBytes(d2)) % 0x1_0000 {
      ChecksumOfLow16(d1, d2, length, crc32, crc32);
    }
    if c == e {
      ChecksumDeterminesLow16(d1, d2, length, crc32, crc32);
    }
  }

  /** A checksum of at most three characters carries only the top
      `5 * length` of the 16 masked CRC bits, so one calculated for one data
      string validates another exactly when their CRC-32 values agree in
      those bits.  The default checksum length of 3 compares 15 of them. */
  lemma ShortChecksumCrossValidates(d1: string, d2: string, length: int, crc32: seq<bv8> -> Crc32)
    requires IsAscii(d1) && IsAscii(d2) && 0 <= length <= 3
    ensures ValidateChecksum(d2, CalculateChecksum(d1, length, crc32).value, crc32)
            == Some(TopBits(crc32(AsciiBytes(d1)), length) == TopBits(crc32(AsciiBytes(d2)), length))
  {
    var c1, c2 := crc32(AsciiBytes(d1)), crc32(AsciiBytes(d2));
    var c := CalculateChecksum(d1, length, crc32).value;
    var e := CalculateChecksum(d2, length, crc32).value;
    SymbolsUpperUnchanged(c);
    SymbolsUpperUnchanged(e);
    assert c == CrcCode(c1)[..length];
    assert e == CrcCode(c2)[..length];
    CodePrefix(c1, length);
    CodePrefix(c2, length);
    PrefixInjective(TopBits(c1, length), TopBits(c2, length), length);
  }

  /** The top `5 * n` of the 16 low-order bits of a CRC-32, as a number. */
  function TopBits(crc: Crc32, n: nat): (x: nat)
    requires n <= 3
    ensures x < Bits.Pow2(5 * n)
  {
    Pow2Values();
    Bits.Shr(crc % 0x1_0000, 16 - 5 * n)
  }

  /** The symbols of the `5 * n` bits of a value below `2^(5 * n)`. */
  function TopSymbols(x: nat, n: nat): (s: string)
    requires n <= 3
    ensures |s| == n
  {
    assert 5 * n % 5 == 0 && 5 * n / 5 == n;
    Base32.Symbols(Bits.Split(Bits.ToBits(x, 5 * n), 5))
  }

  /** The first `n` symbols of the CRC code spell the top `5 * n` of its
      16 masked bits. */
  lemma CodePrefix(crc: Crc32, n: nat)
    requires n <= 3
    ensures CrcCode(crc)[..n] == TopSymbols(TopBits(crc, n), n)
  {
    var b := Crc16Bytes(crc);
    CrcQuintets(crc);
    Bits.Pow2Byte();
    BytesCodePrefix(b[0] as nat, b[1] as nat, crc % 0x1_0000, 8, n);
  }

  /** The first `n` symbols of the code of two bytes spell the top `5 * n`
      bits of their big-endian value `v`; `w` is the byte width, eight. */
  lemma BytesCodePrefix(hi: nat, lo: nat, v: nat, w: nat, n: nat)
    requires Bits.Pow2(w) == 256 && w + w == 16
    requires hi < 256 && lo < 256 && v == hi * 256 + lo && n <= 3
    ensures |Bits.Join([hi, lo], w) + Bits.Zeros(4)| == 20
    ensures Base32.Symbols(Bits.Split(Bits.Join([hi, lo], w) + Bits.Zeros(4), 5))[..n]
            == TopSymbols(Bits.Shr(v, 16 - 5 * n), n)
  {
    var k := 5 * n;
    var filled := Bits.Join([hi, lo], w) + Bits.Zeros(4);
    assert |filled| == 20 && k % 5 == 0 && k / 5 == n;
    var q := Bits.Split(filled, 5);
    var top := Bits.ToBits(Bits.Shr(v, 16 - k), k);
    assert q[..n] == Bits.Split(top, 5) by {
      Bits.SplitPrefix(filled, 5, n, k);
      Bits.PairPrefix(hi, lo, v, w, 4, k);
    }
    SymbolsPrefix(q, n);
  }

  lemma SymbolsPrefix(q: seq<nat>, n: nat)
    requires Bits.Fits(q, 5) && n <= |q|
    ensures Base32.Symbols(q)[..n] == Base32.Symbols(q[..n])
  {
  }

  /** The CRC code is the symbols of the two masked CRC bytes followed by
      four zero bits. */
  lemma CrcQuintets(crc: Crc32)
    ensures |Bits.Join([Crc16Bytes(crc)[0] as nat, Crc16Bytes(crc)[1] as nat], 8) + Bits.Zeros(4)| == 20
    ensures CrcCode(crc) == Base32.Symbols(Bits.Split(
              Bits.Join([Crc16Bytes(crc)[0] as nat, Crc16Bytes(crc)[1] as nat], 8) + Bits.Zeros(4), 5))
  {
    var b := Crc16Bytes(crc);
    var bits := Bits.Join(Base32.ByteValues(b), 8);
    assert Base32.ByteValues(b) == [b[0] as nat, b[1] as nat];
    assert |bits| == 16 && Base32.FillCount(16) == 4;
    assert Base32.Quintets(b) == Bits.Split(bits + Bits.Zeros(4), 5);
    Base32.EncodeShape(b);
  }

  /** Distinct values below `2^(5 * n)` have distinct symbols. */
  lemma PrefixInjective(x: nat, y: nat, n: nat)
    requires n <= 3 && x < Bits.Pow2(5 * n) && y < Bits.Pow2(5 * n)
    ensures TopSymbols(x, n) == TopSymbols(y, n) <==> x == y
  {
    if TopSymbols(x, n) == TopSymbols(y, n) {
      var a, b := Bits.ToBits(x, 5 * n), Bits.ToBits(y, 5 * n);
      Base32.SymbolValuesOfSymbols(Bits.Split(a, 5));
      Base32.SymbolValuesOfSymbols(Bits.Split(b, 5));
      Bits.SplitInjective(a, b, 5);
      Bits.FromToBits(x, 5 * n);
      Bits.FromToBits(y, 5 * n);
    }
  }

  lemma Pow2Values()
    ensures Bits.Pow2(0) == 1 && Bits.Pow2(1) == 2 && Bits.Pow2(5) == 32 && Bits.Pow2(6) == 64
    ensures Bits.Pow2(8) == 256 && Bits.Pow2(10) == 1024 && Bits.Pow2(11) == 2048
    ensures Bits.Pow2(15) == 32768 && Bits.Pow2(16) == 0x1_0000
  {
    assert Bits.Pow2(2) == 4;
    assert Bits.Pow2(4) == 16;
    assert Bits.Pow2(6) == 64;
    assert Bits.Pow2(8) == 256;
    assert Bits.Pow2(10) == 1024;
    assert Bits.Pow2(12) == 4096;
    assert Bits.Pow2(14) == 16384;
  }

  /** Text of Base32 symbols is its own upper-case form, also after it has
      been lower-cased. */
  lemma SymbolsUpperUnchanged(c: string)
    requires Base32.AllSymbols(c)
    ensures Upper(c) == c
    ensures UpperToSymbols(c) == c
    ensures UpperToSymbols(Lower(c)) == c
  {
  }
}
