# DNS exfiltration: a Dafny model

This project models the core of a small DNS exfiltration tool in Dafny.
The client reads a file and Base64-encodes it. It cuts the text into chunks
and sends each chunk as the first label of a DNS query, `NNN-<chunk>.<domain>`,
where `NNN` is the zero-filled chunk id. The server's resolver splits that
label and decodes the chunk. It stores the text under its id, and when it is
stopped it joins the stored texts in ascending id order. A helper module
provides three things:

- unpadded Base32 text;
- random session identifiers;
- short Base32 checksums taken from a CRC-32.

A configuration record with defaults and validation completes the core. The
configuration can be overridden from a JSON object.

The modules follow the program:

- `Base32` covers `base64.b32encode` and `base64.b32decode(s, casefold=True)`
  from the Python standard library.
- `Base64` covers `base64.b64encode` and the non-strict `base64.b64decode`.
  The decoder is CPython's `a2b_base64` loop as a state machine: it skips
  characters outside the alphabet and stops at the first complete padding.
- `EncodingUtils` is the helper module.
- `Config` is the configuration.
- `Client` is the exfiltration client.
- `Server` is the resolver and the saved output.
- `Interop` covers what happens when the client's query names reach the
  server's parser.
- `Wrappers`, `Bits` and `Text` are shared helpers. `Text` holds the Python
  string methods the code uses: `rstrip`, `ljust`, `zfill`, `upper`, slicing,
  `split` and `int`.

The model captures the behaviour of the code as written:

- With the largest chunk size, 59 characters, a full chunk is not a whole
  number of Base64 groups.
- So for any file of 46 bytes or more, the server cannot decode the first
  chunk. It answers NXDOMAIN and stores nothing.
- The client counts that NXDOMAIN as a chunk sent.
- The default `max_chunk_size` is 1024, so the client uses 59.
- Only a file whose encoding fits in one chunk reaches the server whole.

`Interop.FirstChunkLost` and `Interop.LargestChunksLost` state the failure.
`Interop.SingleChunkStored` states the single-chunk success, and
`Interop.AlignedChunksDecode` shows that any chunk size that is a multiple of
four would let every chunk decode. `Client.NewAlignedClient` is the corrected
client built on that, and `Interop.AlignedClientRoundTrip`, listed under
Findings, proves its round trip. With 59-character chunks, chunk 1000 of a file
of more than 1001 chunks is full, its four-digit id makes the label 64
characters long, and the client refuses to send it
(`Client.ThousandthChunkRejected`).

## Model

| member | source | states |
|---|---|---|
| `Base32.Encode` | encoding_utils.py:25 | the standard Base32 text of any byte string is a whole number of 8-character groups |
| `Base32.EncodeShape` | encoding_utils.py:25-27 | the standard encoding is the symbols followed by `=` padding only, so stripping the `=` leaves exactly the symbols |
| `Base32.SymbolCountResidue` | encoding_utils.py:25-27 | the symbol count of n bytes leaves a remainder of 0, 2, 4, 5 or 7 modulo 8, which is an amount of padding the decoder accepts |
| `Base32.DecodePadded` | encoding_utils.py:43-48 | ASCII text whose upper-case form is all symbols, followed by p `=`, decodes exactly when p is 0, 1, 3, 4 or 6 |
| `Base32.DecodeSymbolsPadded` | encoding_utils.py:43-48 | symbols followed by a valid amount of padding decode to the bytes those symbols carry |
| `Base32.DecodeEncode` | encoding_utils.py:25-48 | decoding the standard encoding of any byte string gives the same bytes back |
| `Base32.Decode` | encoding_utils.py:48 | `b32decode` fails with the ASCII error on non-ASCII text and with the padding error on lengths that are not a multiple of eight; otherwise a character outside the alphabet before the trailing `=` of the upper-cased text gives the non-alphabet error, symbols followed by a number of `=` that no final group carries give the padding error, and only those errors occur; whole groups of symbols decode to 5 bytes per 8 characters |
| `EncodingUtils.EncodeNoPadding` | encoding_utils.py:15-27 | the unpadded text has ceil(8n/5) characters, all Base32 symbols, and the padded standard encoding is exactly this text followed by its padding |
| `EncodingUtils.PadToQuantum` | encoding_utils.py:43-46 | the padded text keeps the input as a prefix, adds fewer than eight `=` and only `=`, and reaches a multiple of eight |
| `EncodingUtils.RoundTrip` | encoding_utils.py:15-48 | `decode_base32_no_padding(encode_base32_no_padding(b)) == b` for every byte string b |
| `EncodingUtils.DecodeNoPadding` | encoding_utils.py:30-48 | non-ASCII text fails with the ASCII error; ASCII text with a character outside the alphabet before its trailing `=` (once upper-cased) fails with the non-alphabet error; otherwise it decodes exactly when the `=` after those symbols, counting the ones completion adds, are an amount a final group carries, and fails with the padding error otherwise; ASCII text whose upper case is all symbols decodes exactly when its length is 0, 2, 4, 5 or 7 modulo 8, to 5 bytes per 8 characters |
| `EncodingUtils.DecodeIgnoresCase` | encoding_utils.py:48 | decoding lower-cased text gives the same result as decoding the text itself (casefold) |
| `EncodingUtils.ValidTextDecodes` | encoding_utils.py:115-126 | on ASCII text `is_valid_base32` holds exactly when the upper-cased text is all symbols, and valid text decodes exactly when its length is 0, 2, 4, 5 or 7 modulo 8 |
| `EncodingUtils.EncodedTextIsValid` | encoding_utils.py:115-126 | every unpadded encoding passes `is_valid_base32` |
| `EncodingUtils.IsValidBase32` | encoding_utils.py:115-126 | the check holds exactly when every character upper-cases to a symbol; on ASCII text, exactly when the upper-cased text is all symbols |
| `EncodingUtils.GenerateSessionId` | encoding_utils.py:51-65 | from `(5*length+7)//8` random bytes the session id has exactly `length` characters, all Base32 symbols, and is the prefix of the bytes' unpadded encoding |
| `EncodingUtils.Crc16Bytes` | encoding_utils.py:83-86 | the CRC masked to 16 bits becomes two bytes, high byte first, whose value is the masked CRC |
| `EncodingUtils.CrcCode` | encoding_utils.py:83-89 | the Base32 form of the two CRC bytes is four symbols |
| `EncodingUtils.FillAndCut` | encoding_utils.py:93-97 | the checksum has `length` characters (Python's negative-slice length otherwise), keeps the code's characters and is filled with `A` beyond the fourth |
| `EncodingUtils.CalculateChecksum` | encoding_utils.py:68-97 | a checksum exists exactly for ASCII data; it has the requested length, consists of symbols, and is `A` from the fifth character on |
| `EncodingUtils.ChecksumOfLow16` | encoding_utils.py:83 | two data strings whose CRC-32 values agree in the low 16 bits get the same checksum |
| `EncodingUtils.ChecksumDeterminesLow16` | encoding_utils.py:83-97 | conversely, two checksums of four or more characters agree only when the CRC-32 values agree in the low 16 bits |
| `EncodingUtils.ValidateChecksum` | encoding_utils.py:100-112 | validation reaches a verdict exactly for ASCII data |
| `EncodingUtils.ChecksumCrossValidates` | encoding_utils.py:100-112 | a checksum of four or more characters calculated for one data string validates another exactly when their CRC-32 values agree in the low 16 bits, so every other checksum is rejected |
| `EncodingUtils.ShortChecksumCrossValidates` | encoding_utils.py:68-112 | a checksum of at most three characters (the default length is 3) calculated for one data string validates another exactly when their CRC-32 values agree in the top 5 × length of the low 16 bits, so the default checksum compares 15 of them and every other checksum is rejected |
| `EncodingUtils.ChecksumAtOwnLength` | encoding_utils.py:111 | recomputing a checksum at its own length reproduces it |
| `EncodingUtils.ChecksumValidates` | encoding_utils.py:100-112 | a freshly calculated checksum validates against its data, in upper or in lower case |
| `Base64.Encode` | client.py:84 | the Base64 text of n bytes has 4*ceil(n/3) characters |
| `Base64.EncodeShape` | client.py:81-84 | the encoding is ASCII, and every character is an alphabet symbol or a `=` in one of the last two places |
| `Base64.A2B` | server.py:38 | the decoding loop fails only with "excess data character" or "incorrect padding", and on success extends the bytes already emitted |
| `Base64.Decode` | server.py:38 | decoding fails with the non-ASCII error exactly when the text is not ASCII |
| `Base64.SymbolsOnly` | server.py:38 | over symbols only, the decoding loop succeeds exactly when the symbols complete the current group to a multiple of four |
| `Base64.DecodeSymbolsOnly` | server.py:38 | text of symbols only decodes exactly when its length is a multiple of four |
| `Base64.DecodeEncodeFrom` | client.py:84 | the decoding loop run over an encoding emits the encoded byte values after whatever it had emitted |
| `Base64.EncodeAppend` | client.py:84 | bytes split after a whole number of 3-byte groups encode to the concatenation of the two encodings |
| `Base64.DecodeEncode` | server.py:38 | `b64decode(b64encode(b)) == b` for every byte string b |
| `Text.RStripAppended` | encoding_utils.py:27 | `rstrip` removes exactly the appended copies of a character that the text does not end with |
| `Text.ZFill` | client.py:106 | `zfill` gives at least `width` characters: `0` characters followed by the text |
| `Text.DecimalStringValue` | client.py:106 | `str(n)` read back as a decimal is n |
| `Text.DecimalStringShort` | client.py:105-111 | `str(n)` has at most three digits exactly when n < 1000 |
| `Text.ParseZeroFilled` | server.py:37 | `int(str(n).zfill(w)) == n` |
| `Text.Before` | server.py:35 | the part before the first separator is a prefix without the separator, followed by the separator when shorter than the text |
| `Text.BeforeJoined` | server.py:35 | the part before the first `c` of `a + c + b` is `a` when `a` holds no `c` |
| `Text.SplitOnce` | server.py:36 | `split(c, 1)` yields two parts exactly when `c` occurs, the first being the text before it |
| `Text.LJust` | encoding_utils.py:95 | `ljust` keeps the text and fills with the fill character up to the width |
| `Text.Prefix` | encoding_utils.py:97 | `s[:n]` has Python's slice length for positive and negative n and is a prefix of s |
| `Config.Defaults` | config.py:10-36 | the default port is 53 and the default total size is 10 MiB |
| `Config.Validate` | config.py:45-77 | a configuration that passes the checks comes back unchanged |
| `Config.ValidateChecksInOrder` | config.py:45-77 | a configuration passes exactly when all thirteen checks hold, and a failure reports the first check it violates, in the order of the source |
| `Config.DefaultsValid` | config.py:80-81 | the default configuration passes its own checks |
| `Config.FieldNameInjective` | config.py:90 | no two fields share a name |
| `Config.Set` | config.py:92-93 | an override is accepted exactly when the value has the field's type, and the field then reads back as the value |
| `Config.SetOnlyChanges` | config.py:92 | an override changes its own field and no other |
| `Config.MergeFields` | config.py:91-93 | a merge fails exactly on an ill-typed value; otherwise every named field takes the file's value and every other field keeps its default |
| `Config.KnownOverrides` | config.py:90-91 | the overrides keep exactly the keys that name a field, with their values |
| `Config.MergeReadsFieldNames` | config.py:90-92 | a merge depends only on the entries whose keys name fields |
| `Config.LoadConfig` | config.py:83-93 | without a file the result is the defaults; any loaded configuration passed the checks; with a file whose overrides apply, loading succeeds exactly when the overridden configuration is valid |
| `Config.LoadOverrides` | config.py:83-93 | a loaded configuration passes every check; each field has the file's value when the file names it, and its default otherwise |
| `Config.LoadIgnoresUnknownKeys` | config.py:90-91 | two files that agree on the keys naming fields load to the same result |
| `Client.EffectiveChunkSize` | client.py:45-48 | the chunk size is `min(59, max_chunk_size)`: at most both bounds and equal to one of them |
| `Client.NewClient` | client.py:33-53 | a client built from a valid configuration has chunk size `min(59, max_chunk_size)` (at most both, equal to one), keeps the configuration and has sent nothing |
| `Client.DefaultChunkSize` | client.py:45-48 | the default configuration is valid and, with its `max_chunk_size` of 1024, gives the chunk size 59 |
| `Client.Slices` | client.py:85-88 | the pieces of a slicing join back to the text |
| `Client.SlicesShape` | client.py:85-88 | there are ceil(len/n) pieces, each holding 1 to n characters, and all but the last exactly n |
| `Client.ChunkData` | client.py:77-88 | the chunks join back to the Base64 encoding, are ceil(len/size) in number, all full except the last, and there are none exactly for an empty file |
| `Client.ValidateFile` | client.py:90-100 | a file passes exactly when it exists and is no larger than `max_total_size` |
| `Client.SendChunk` | client.py:102-144 | a chunk counts as sent exactly when its label fits in 63 characters and the query did not fail; the query is issued exactly when the label fits; only a sent chunk adds its length to `total_sent` |
| `Client.LabelFits` | client.py:105-111 | an id below 1000 with a chunk no longer than the chunk size always gives a label that fits |
| `Client.LabelLayout` | client.py:105-107 | a label is the zero-filled id, which reads back as the id and has 3 digits below 1000 and more from 1000 on, then `-`, then the chunk |
| `Client.QueryName` | client.py:107 | when the chunk has no dot, the query name's first dot-separated part is the label |
| `Client.AcceptedWhen` | client.py:109-132 | below id 1000 a chunk counts as sent exactly when it has at most 59 characters and the query did not fail; from 1000 on a 59-character chunk never does |
| `Client.LabelOverflows` | client.py:105-116 | from id 1000 on, a label with a full 59-character chunk is too long |
| `Client.AcceptedCount` | client.py:166-169 | no more chunks are counted than were tried |
| `Client.AllAccepted` | client.py:166-178 | the success count equals the number of chunks exactly when every chunk was accepted |
| `Client.AllAcceptedCounted` | client.py:166-178 | when every chunk is accepted, the success count reaches the number of chunks |
| `Client.CountedAllAccepted` | client.py:166-178 | when the success count reaches the number of chunks, every chunk was accepted |
| `Client.ExfiltrateFile` | client.py:146-182 | an invalid file sends nothing and fails; the result is true exactly when the file is valid, non-empty and every chunk was accepted; the queries issued and the final `total_sent` are those of the chunks in order |
| `Client.ThousandthChunkRejected` | client.py:106-116 | with 59-character chunks, a file of more than 1001 chunks always has chunk 1000 rejected |
| `Server.RCode` | server.py:43-51 | a reply's code is 0 (no error) exactly for an answer and 3 (NXDOMAIN) exactly for a name error |
| `Server.ParseRecord` | server.py:35-40 | for any query name, a record is read exactly when its first label has a `-`, the text before it is decimal digits, the text after it decodes as Base64 and the bytes decode as UTF-8; the id is that decimal value and the text is the decoded payload |
| `Server.DataChunksResponse` | server.py:53-54 | the answer holds one record per stored id, names exactly the stored ids, and lists them in the order they were first stored (the order `Upsert` keeps) |
| `Server.Upsert` | server.py:40 | storing a record maps its id to its text, keeps the store well formed, and puts a new id last in the storage order |
| `Server.Resolve` | server.py:30-51 | a query that does not parse changes nothing and gets RCODE 3; one that parses is stored and answered, with RCODE 0, with one record per stored id; the code is 0 exactly when the query parses |
| `Server.UpsertKeepsOthers` | server.py:40 | storing a record leaves every other id's text unchanged |
| `Server.UpsertCommutes` | server.py:40 | records with different ids give the same stored texts in either arrival order |
| `Server.SortedIds` | server.py:57 | `sorted(data_chunks)` is strictly increasing and holds exactly the stored ids |
| `Server.IncreasingUnique` | server.py:57 | two strictly increasing sequences with the same elements are equal, so the sorted order is unique |
| `Server.SaveAppendsHighest` | server.py:56-59 | storing text under an id above every stored id appends that text to the saved content |
| `Server.SaveContent` | server.py:56-59 | the saved text is the stored texts joined along the one ascending listing of the stored ids |
| `Interop.FirstLabel` | server.py:35 | the first label of a client's query name is the client's label |
| `Interop.SplitLabel` | server.py:36 | the server splits a client's label into the zero-filled id and the chunk |
| `Interop.ParseClientName` | server.py:35-38 | the server reads back the client's id and decodes exactly the client's chunk |
| `Interop.FirstChunk` | client.py:85-88 | the first chunk is a prefix of the file's encoding |
| `Interop.SingleChunkStored` | server.py:30-45 | a file whose encoding fits in one chunk is sent as that one chunk, and the server stores the file's text under id 0 |
| `Interop.FirstChunkFull` | client.py:45-48 | with the largest chunk size, the first chunk of a file of at least 46 bytes is 59 symbols |
| `Interop.UnalignedChunkRejected` | server.py:38-51 | a chunk of symbols whose length is not a multiple of four is answered NXDOMAIN and changes nothing |
| `Interop.FirstChunkLost` | client.py:128-132 | with the largest chunk size, the server rejects the first chunk of any file of 46 bytes or more, while the client counts the resulting NXDOMAIN as a chunk sent |
| `Interop.LargestChunksLost` | client.py:45-48 | for any valid configuration whose `max_chunk_size` is 59 or more, the client built from it splits every file of 46 bytes or more into chunks that cannot all be decoded |
| `Interop.AlignedSlicesDecode` | server.py:38 | Base64 text cut every 4k characters decodes piece by piece, and the decoded pieces join back to the bytes |
| `Client.AlignedChunkSize` | client.py:45-48 | corrected chunk size: the largest whole number of 4-character Base64 groups within `min(59, max_chunk_size)`, and one group when that is below four |
| `Client.NewAlignedClient` | client.py:45-48 | corrected client: the client the configuration gives, except that its chunk size is a positive multiple of four that fits a label |
| `Interop.AlignedClientRoundTrip` | client.py:77-88 | with the corrected chunk size, every chunk of every file decodes on its own and the decoded chunks are the file |
| `Interop.AlignedChunksDecode` | client.py:77-88 | with a chunk size that is a multiple of four, every chunk of every file decodes on its own and the decoded chunks are the file |

## Findings

| source | as written | input that shows it | evidently intended | confidence | as-written member | corrected member |
|---|---|---|---|---|---|---|
| client.py:45-48 | the chunk size is `min(63 - 4, max_chunk_size)`, which is 59 for the default `max_chunk_size` of 1024, so a full chunk is not a whole number of 4-character Base64 groups, while server.py:38 decodes each chunk on its own | any file of 46 bytes: its encoding has 64 characters, and the first chunk of 59 symbols fails to decode, so the server answers NXDOMAIN and the client counts the chunk as sent | a chunk size that is a multiple of four, for example 56, so that every chunk decodes and the decoded chunks join back to the file; the corrected size is never below 4, so for a `max_chunk_size` of 1 to 3 it exceeds the configured maximum | high; not executed | `Interop.LargestChunksLost` | `Interop.AlignedClientRoundTrip` |

## Left out

- DNS transport is left out. The resolver, its nameserver setup, timeouts and the dnslib server thread are not modelled. Each query's outcome is a parameter (`Client.QueryOutcome`).
- `time.sleep` and the float `rate_limit_delay` have no effect on the modelled results.
- File I/O is left out: `os.path.exists`, reading the file, `os.makedirs` in `__post_init__` and appending to the output file. A file is its content, or None when it does not exist. `save_file` is modelled as the text it appends (`Server.SaveContent`).
- JSON parsing is left out. A config file is the map its top-level object gives. A file whose top level is not an object, which Python rejects on `data.items()`, is not modelled.
- Logging, coloured printing, argument parsing and the `__main__` blocks are left out.
- `secrets.token_bytes` is left out. The random bytes are an input of `EncodingUtils.GenerateSessionId`.
- `zlib.crc32` is a function parameter, because the CRC-32 table computation is library code.
- UTF-8 decoding of the chunk bytes is a function parameter of the server.
- The label parser takes the query name as a plain string. dnslib's escaping of unusual characters in `str(qname)` and its trailing dot are not modelled.
- dnslib's naming of answer records after integer ids is not modelled, because dnslib is library code. A reply is the list of ids it names. If `RR` refuses an integer name other than 0 by raising, the `except` at server.py:47-51 would turn such a reply into RCODE 3 after line 40 has already stored the record; the model does not cover that case.
- Python `int()` is modelled on non-empty ASCII decimal digit strings only. Signs, surrounding whitespace, underscores and non-ASCII digits, which `int()` also accepts, make `ParseDecimal` fail.
- `EncodingUtils.DecodeIgnoresCase` covers ASCII lower-casing only, because `Text.Lower` changes only ASCII letters. Python's `str.lower` also maps U+212A (Kelvin sign) to `k`, so the lower-cased form of text holding it can decode while the text itself raises.
- `str.upper()` is modelled on ASCII letters. Where an upper-cased character is compared with the Base32 alphabet, the model also covers U+0131 and U+017F, the only other characters whose upper case is a single symbol. Other non-ASCII case mappings are not modelled.
- `Config.Set`: Python does not check the types of JSON overrides. A string where a number is expected raises on the first comparison. A boolean passes numeric checks as 0 or 1, and a float is compared as a number. The model instead rejects any value of the wrong kind with `IllTypedOverride`.
- `EncodingUtils.GenerateSessionId`: a negative length is not modelled; the source's slice would then count from the end.
- `Client.NewClient` requires a valid configuration. In the source every `ServerConfig` has passed `__post_init__`, and `rate_limit` must be positive for the delay to be computed.
- No claim is made that a multi-chunk file reaches the server intact as text. With 59-character chunks its bytes do not (`Interop.FirstChunkLost`). With aligned chunks the bytes do (`Interop.AlignedChunksDecode`), but the server decodes each chunk's bytes as UTF-8 separately, so a character split between chunks is still refused.
- Several documented features have no code in these files: sessions, checksummed chunk names, completion markers, adaptive rate, jitter, retries, expiry and the server's limits. They are not modelled beyond the configuration fields that name them.
- `setup_resolver` is not modelled, because it only configures the DNS library.
