/** How the client's query names meet the server's parser.  The two
    programs agree on the label layout, but the server decodes each chunk on
    its own while the client cuts the Base64 text at an arbitrary length. */
module Interop {
  import opened Wrappers
  import opened Text
  import Base64
  import Client
  import Server
  import Bits
  import Config

  /** Symbols of the Base64 alphabet are neither dots nor hyphens. */
  lemma NoDots(s: string)
    requires forall i :: 0 <= i < |s| ==> Base64.IsSymbol(s[i]) || s[i] == Base64.PadChar
    ensures '.' !in s
  {
    forall i | 0 <= i < |s|
      ensures s[i] != '.'
    {
      assert Base64.IsSymbol(s[i]) || s[i] == Base64.PadChar;
    }
  }

  /** A zero-filled id is made of digits only. */
  lemma IdDigits(id: nat)
    ensures var digits := ZFill(DecimalString(id), 3);
            digits != [] && AllDigits(digits) && '.' !in digits && '-' !in digits
  {
    var digits := ZFill(DecimalString(id), 3);
    ParseZeroFilled(id, 3);
    forall i | 0 <= i < |digits|
      ensures digits[i] != '.' && digits[i] != '-'
    {
      assert IsDigit(digits[i]);
    }
  }

  /** The first label of a client's query name is its label. */
  lemma FirstLabel(id: nat, chunk: string, domain: string)
    requires '.' !in chunk
    ensures Before(Client.QueryName(id, chunk, domain), '.') == Client.Label(id, chunk)
  {
  }

  /** A client's label splits at its first hyphen into the zero-filled id
      and the chunk. */
  lemma SplitLabel(id: nat, chunk: string)
    ensures SplitOnce(Client.Label(id, chunk), '-') == Some((ZFill(DecimalString(id), 3), chunk))
  {
    var digits := ZFill(DecimalString(id), 3);
    IdDigits(id);
    var l := Client.Label(id, chunk);
    assert l == digits + ['-'] + chunk;
    BeforeJoined(digits, '-', chunk);
    var parts := SplitOnce(l, '-');
    assert parts.Some? && parts.value.0 == digits;
    assert l == digits + ['-'] + parts.value.1;
    assert l[|digits| + 1..] == parts.value.1;
    assert l[|digits| + 1..] == chunk;
  }

  /** The server reads back the id the client wrote and decodes exactly the
      client's chunk. */
  lemma ParseClientName(id: nat, chunk: string, domain: string, utf8: seq<bv8> -> Option<string>)
    requires '.' !in chunk
    ensures Server.ParseRecord(Client.QueryName(id, chunk, domain), utf8)
            == match Base64.Decode(chunk)
               case Failure(_) => None
               case Success(bytes) =>
                 match utf8(bytes)
                 case None => None
                 case Some(text) => Some(Server.Record(id, text))
  {
    FirstLabel(id, chunk, domain);
    SplitLabel(id, chunk);
    ParseZeroFilled(id, 3);
  }

  /** The first chunk of a file is a prefix of its encoding. */
  lemma FirstChunk(c: Client.Client, raw: seq<bv8>)
    requires c.chunkSize > 0 && raw != []
    ensures var chunks := Client.ChunkData(c, raw);
            chunks[0] == Base64.Encode(raw)[..|chunks[0]|]
            && forall i :: 0 <= i < |chunks[0]| ==> chunks[0][i] == Base64.Encode(raw)[i]
  {
    var chunks := Client.ChunkData(c, raw);
    assert Client.Concat(chunks) == chunks[0] + Client.Concat(chunks[1..]);
  }

  /** A file whose encoding fits in one chunk reaches the server whole: the
      query is answered and the server stores the file's text under id 0. */
  lemma SingleChunkStored(c: Client.Client, raw: seq<bv8>, domain: string,
                          utf8: seq<bv8> -> Option<string>, st: Server.Store)
    requires c.chunkSize > 0 && raw != [] && |Base64.Encode(raw)| <= c.chunkSize
    requires Server.Valid(st) && utf8(raw).Some?
    ensures Client.ChunkData(c, raw) == [Base64.Encode(raw)]
    ensures Server.Resolve(st, Client.QueryName(0, Base64.Encode(raw), domain), utf8).0.chunks
            == st.chunks[0 := utf8(raw).value]
  {
    var chunks := Client.ChunkData(c, raw);
    FirstChunk(c, raw);
    assert |chunks| == 1;
    Base64.EncodeShape(raw);
    var enc := Base64.Encode(raw);
    assert chunks[0] == enc;
    NoDots(enc);
    ParseClientName(0, enc, domain, utf8);
    Base64.DecodeEncode(raw);
  }

  lemma ChunkCountArithmetic(n: nat)
    requires n >= 46
    ensures 4 * ((n + 2) / 3) >= 64
    ensures (4 * ((n + 2) / 3) + 58) / 59 >= 2
  {
    var e := 4 * ((n + 2) / 3);
    assert (n + 2) / 3 >= 16;
    Bits.DivModUnique(e + 58, 59, (e + 58) / 59, (e + 58) % 59);
  }

  /** With the largest chunk size, the first chunk of a file of at least
      46 bytes is 59 symbols. */
  lemma FirstChunkFull(c: Client.Client, raw: seq<bv8>)
    requires c.chunkSize == Client.MaxChunkByLabel && |raw| >= 46
    ensures var chunk := Client.ChunkData(c, raw)[0];
            |chunk| == Client.MaxChunkByLabel && forall i :: 0 <= i < |chunk| ==> Base64.IsSymbol(chunk[i])
  {
    var chunks := Client.ChunkData(c, raw);
    var enc := Base64.Encode(raw);
    ChunkCountArithmetic(|raw|);
    assert |chunks| >= 2;
    var chunk := chunks[0];
    assert |chunk| == 59;
    FirstChunk(c, raw);
    Base64.EncodeShape(raw);
    forall i | 0 <= i < |chunk|
      ensures Base64.IsSymbol(chunk[i])
    {
      assert chunk[i] == enc[i];
      assert i < |enc| - 2;
    }
  }

  /** A chunk of Base64 symbols whose length is not a multiple of four
      does not decode: the server answers NXDOMAIN and stores nothing. */
  lemma UnalignedChunkRejected(id: nat, chunk: string, domain: string,
                               utf8: seq<bv8> -> Option<string>, st: Server.Store)
    requires forall i :: 0 <= i < |chunk| ==> Base64.IsSymbol(chunk[i])
    requires |chunk| % 4 != 0
    requires Server.Valid(st)
    ensures Server.Resolve(st, Client.QueryName(id, chunk, domain), utf8) == (st, Server.NameError)
  {
    NoDots(chunk);
    Base64.DecodeSymbolsOnly(chunk);
    ParseClientName(id, chunk, domain, utf8);
  }

  /** With the largest chunk size, the first chunk of any file of at least
      46 bytes is 59 symbols, which is not a whole number of Base64 groups:
      the server answers NXDOMAIN and stores nothing, and the client counts
      that NXDOMAIN as a chunk sent. */
  lemma FirstChunkLost(c: Client.Client, raw: seq<bv8>, domain: string,
                       utf8: seq<bv8> -> Option<string>, st: Server.Store)
    requires c.chunkSize == Client.MaxChunkByLabel && |raw| >= 46
    requires Server.Valid(st)
    ensures var chunk := Client.ChunkData(c, raw)[0];
            Server.Resolve(st, Client.QueryName(0, chunk, domain), utf8) == (st, Server.NameError)
            && Client.SendChunk(c, 0, chunk, domain, Client.NxDomain).ok
  {
    FirstChunkFull(c, raw);
    var chunk := Client.ChunkData(c, raw)[0];
    UnalignedChunkRejected(0, chunk, domain, utf8, st);
    Client.LabelFits(c, 0, chunk);
  }

  /** The bytes of the chunks, each decoded on its own as the server does,
      joined in order; None when some chunk does not decode. */
  function DecodeAll(chunks: seq<string>): Option<seq<bv8>>
  {
    if chunks == [] then Some([])
    else match Base64.Decode(chunks[0])
      case Failure(_) => None
      case Success(bytes) =>
        match DecodeAll(chunks[1..])
        case None => None
        case Some(rest) => Some(bytes + rest)
  }

  lemma GroupCount(k: nat, len: nat)
    requires k > 0
    ensures 4 * ((3 * k + 2) / 3) == 4 * k
    ensures len <= 3 * k ==> 4 * ((len + 2) / 3) <= 4 * k
    ensures len > 3 * k ==> 4 * ((len + 2) / 3) > 4 * k
  {
    Bits.DivModUnique(3 * k + 2, 3, k, 2);
    Bits.DivModUnique(len + 2, 3, (len + 2) / 3, (len + 2) % 3);
  }

  lemma SlicesCons(x: string, y: string, n: nat)
    requires n > 0 && |x| == n && y != []
    ensures Client.Slices(x + y, n) == [x] + Client.Slices(y, n)
  {
    assert (x + y)[..n] == x && (x + y)[n..] == y;
  }

  lemma DecodeAllCons(x: string, rest: seq<string>, a: seq<bv8>, b: seq<bv8>)
    requires Base64.Decode(x) == Success(a) && DecodeAll(rest) == Some(b)
    ensures DecodeAll([x] + rest) == Some(a + b)
  {
    assert ([x] + rest)[1..] == rest;
  }

  /** `3k` bytes encode to exactly `4k` characters. */
  lemma WholeGroups(a: seq<bv8>, k: nat)
    requires |a| == 3 * k
    ensures |a| % 3 == 0 && |Base64.Encode(a)| == 4 * k
  {
    Bits.DivModUnique(3 * k, 3, k, 0);
    Bits.DivModUnique(3 * k + 2, 3, k, 2);
  }

  /** A file whose encoding fits in one piece decodes from it. */
  lemma ShortSlicesDecode(raw: seq<bv8>, k: nat)
    requires k > 0 && |raw| <= 3 * k
    ensures DecodeAll(Client.Slices(Base64.Encode(raw), 4 * k)) == Some(raw)
  {
    var enc := Base64.Encode(raw);
    GroupCount(k, |raw|);
    if raw == [] {
      assert enc == [];
    } else {
      assert Client.Slices(enc, 4 * k) == [enc];
      Base64.DecodeEncode(raw);
      DecodeAllCons(enc, [], raw, []);
      assert [enc] + [] == [enc] && raw + [] == raw;
    }
  }

  /** The first `3k` bytes encode to the first piece of `4k` characters,
      and the rest of the file to the remaining pieces. */
  lemma LongSlicesSplit(raw: seq<bv8>, k: nat)
    requires k > 0 && |raw| > 3 * k
    ensures Client.Slices(Base64.Encode(raw), 4 * k)
            == [Base64.Encode(raw[..3 * k])] + Client.Slices(Base64.Encode(raw[3 * k..]), 4 * k)
  {
    var a, b := raw[..3 * k], raw[3 * k..];
    assert raw == a + b;
    WholeGroups(a, k);
    Base64.EncodeAppend(a, b);
    SlicesCons(Base64.Encode(a), Base64.Encode(b), 4 * k);
  }

  /** Decoding the pieces of a long encoding decodes its first `3k` bytes
      and then the pieces of the rest. */
  lemma LongSlicesDecode(raw: seq<bv8>, k: nat)
    requires k > 0 && |raw| > 3 * k
    ensures DecodeAll(Client.Slices(Base64.Encode(raw), 4 * k))
            == match DecodeAll(Client.Slices(Base64.Encode(raw[3 * k..]), 4 * k))
               case None => None
               case Some(tail) => Some(raw[..3 * k] + tail)
  {
    var a, b := raw[..3 * k], raw[3 * k..];
    LongSlicesSplit(raw, k);
    Base64.DecodeEncode(a);
    var rest := Client.Slices(Base64.Encode(b), 4 * k);
    assert ([Base64.Encode(a)] + rest)[1..] == rest;
  }

  /** Slicing an encoding at a multiple of four characters cuts it at
      whole groups, so each piece decodes on its own and the decoded pieces
      join back to the bytes. */
  lemma {:induction false} AlignedSlicesDecode(raw: seq<bv8>, k: nat)
    requires k > 0
    ensures DecodeAll(Client.Slices(Base64.Encode(raw), 4 * k)) == Some(raw)
    decreases |raw|
  {
    if |raw| <= 3 * k {
      ShortSlicesDecode(raw, k);
    } else {
      AlignedSlicesDecode(raw[3 * k..], k);
      LongSlicesDecode(raw, k);
      assert raw[..3 * k] + raw[3 * k..] == raw;
    }
  }

  /** With a chunk size that is a multiple of four, the server can decode
      every chunk of every file, and the decoded chunks are the file. */
  lemma AlignedChunksDecode(c: Client.Client, raw: seq<bv8>)
    requires c.chunkSize > 0 && c.chunkSize % 4 == 0
    ensures DecodeAll(Client.ChunkData(c, raw)) == Some(raw)
  {
    var k := c.chunkSize / 4;
    Bits.DivModUnique(c.chunkSize, 4, k, 0);
    AlignedSlicesDecode(raw, k);
  }

  /** A client whose chunk size is aligned to Base64 groups delivers every
      file: each chunk decodes and the decoded chunks are the file. */
  lemma AlignedClientRoundTrip(config: Config.Config, raw: seq<bv8>)
    requires Config.Valid(config)
    ensures DecodeAll(Client.ChunkData(Client.NewAlignedClient(config), raw)) == Some(raw)
  {
    AlignedChunksDecode(Client.NewAlignedClient(config), raw);
  }

  /** With the chunk size a valid configuration gives when its
      `max_chunk_size` is 59 or more, which includes the default, the chunks
      of any file of at least 46 bytes cannot all be decoded. */
  lemma LargestChunksLost(config: Config.Config, raw: seq<bv8>)
    requires Config.Valid(config) && config.maxChunkSize >= Client.MaxChunkByLabel && |raw| >= 46
    ensures DecodeAll(Client.ChunkData(Client.NewClient(config), raw)) == None
  {
    var c := Client.NewClient(config);
    assert c.chunkSize == Client.MaxChunkByLabel;
    FirstChunkFull(c, raw);
    UnalignedHeadLost(Client.ChunkData(c, raw));
  }

  lemma UnalignedHeadLost(chunks: seq<string>)
    requires chunks != [] && |chunks[0]| % 4 != 0
    requires forall i :: 0 <= i < |chunks[0]| ==> Base64.IsSymbol(chunks[0][i])
    ensures DecodeAll(chunks) == None
  {
    Base64.DecodeSymbolsOnly(chunks[0]);
  }
}
