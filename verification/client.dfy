/** The exfiltration client: the chunk size it derives from the
    configuration, the Base64 chunking of a file, the label of each query,
    and the bookkeeping of sent chunks.  The resolver is reduced to the
    outcome it reports for each query. */
module Client {
  import opened Wrappers
  import opened Text
  import Config
  import Base64
  import Bits

  /** The longest label a domain name may carry (section 2.3.4 of RFC 1035). */
  const LabelMaxLength: nat := 63

  /** The longest chunk that fits in a label beside a three-digit id and the
      hyphen. */
  const MaxChunkByLabel: nat := LabelMaxLength - 4

  datatype Client = Client(config: Config.Config, chunkSize: nat, totalSent: nat)

  /** `min(max_chunk_by_label, max_chunk_size)`. */
  function EffectiveChunkSize(maxChunkSize: int): (n: int)
    ensures n <= MaxChunkByLabel && n <= maxChunkSize
    ensures n == MaxChunkByLabel || n == maxChunkSize
  {
    if MaxChunkByLabel <= maxChunkSize then MaxChunkByLabel else maxChunkSize
  }

  /** A client for a configuration that passed its checks, before any
      chunk is sent. */
  function NewClient(config: Config.Config): (c: Client)
    requires Config.Valid(config)
    ensures 0 < c.chunkSize <= MaxChunkByLabel && c.chunkSize <= config.maxChunkSize
    ensures c.chunkSize == MaxChunkByLabel || c.chunkSize == config.maxChunkSize
    ensures c.config == config && c.totalSent == 0
  {
    assert Config.Rules(config)[1].holds;
    Client(config, EffectiveChunkSize(config.maxChunkSize), 0)
  }

  /** The default configuration gives the largest chunk size. */
  lemma DefaultChunkSize()
    ensures Config.Valid(Config.Defaults())
    ensures NewClient(Config.Defaults()).chunkSize == MaxChunkByLabel
  {
    Config.DefaultsValid();
    Config.ValidateChecksInOrder(Config.Defaults());
  }

  /** The chunk size rounded down to whole 4-character Base64 groups, and
      never below one group: the size `NewClient` evidently intends, since
      the server decodes every chunk on its own. */
  function AlignedChunkSize(maxChunkSize: int): (n: nat)
    ensures n % 4 == 0 && 0 < n <= MaxChunkByLabel
    ensures n <= EffectiveChunkSize(maxChunkSize) || n == 4
    ensures EffectiveChunkSize(maxChunkSize) < n + 4
  {
    var m := EffectiveChunkSize(maxChunkSize);
    if m < 4 then 4
    else
      Bits.DivModUnique(m, 4, m / 4, m % 4);
      m / 4 * 4
  }

  /** `NewClient` with the chunk size aligned to Base64 groups. */
  function NewAlignedClient(config: Config.Config): (c: Client)
    requires Config.Valid(config)
    ensures c == NewClient(config).(chunkSize := c.chunkSize)
    ensures c.chunkSize % 4 == 0 && 0 < c.chunkSize <= MaxChunkByLabel
    ensures c.chunkSize <= config.maxChunkSize || c.chunkSize == 4
  {
    NewClient(config).(chunkSize := AlignedChunkSize(config.maxChunkSize))
  }

  /** The pieces joined back together. */
  function Concat(pieces: seq<string>): string
  {
    if pieces == [] then [] else pieces[0] + Concat(pieces[1..])
  }

  lemma CeilingStep(m: nat, n: nat)
    requires 0 < n < m
    ensures (m - 1) / n + 1 == (m + n - 1) / n
  {
    var q, r := (m - 1) / n, (m - 1) % n;
    Bits.DivModUnique(m - 1, n, q, r);
    Bits.DivModUnique(m + n - 1, n, q + 1, r);
  }

  /** `s` cut into consecutive pieces of `n` characters, the last one
      possibly shorter: `[s[i:i + n] for i in range(0, len(s), n)]`. */
  function Slices(s: string, n: nat): (pieces: seq<string>)
    requires n > 0
    ensures Concat(pieces) == s
    decreases |s|
  {
    if |s| == 0 then []
    else if |s| <= n then [s]
    else
      var rest := Slices(s[n..], n);
      var pieces := [s[..n]] + rest;
      assert pieces[1..] == rest;
      assert s[..n] + s[n..] == s;
      pieces
  }

  /** There are `ceil(|s| / n)` pieces; every piece holds between 1 and `n`
      characters, and all but the last exactly `n`. */
  lemma {:induction false} SlicesShape(s: string, n: nat)
    requires n > 0
    ensures |Slices(s, n)| == (|s| + n - 1) / n
    ensures forall i :: 0 <= i < |Slices(s, n)| ==> 0 < |Slices(s, n)[i]| <= n
    ensures forall i :: 0 <= i < |Slices(s, n)| - 1 ==> |Slices(s, n)[i]| == n
    decreases |s|
  {
    if 0 < |s| <= n {
      Bits.DivModUnique(|s| + n - 1, n, 1, |s| - 1);
    } else if |s| > n {
      CeilingStep(|s|, n);
      SlicesShape(s[n..], n);
      var pieces := Slices(s, n);
      assert pieces == [s[..n]] + Slices(s[n..], n);
      assert forall i :: 1 <= i < |pieces| ==> pieces[i] == Slices(s[n..], n)[i - 1];
    }
  }

  /** `chunk_data`: the Base64 encoding of the bytes, cut into chunks. */
  function ChunkData(c: Client, raw: seq<bv8>): (chunks: seq<string>)
    requires c.chunkSize > 0
    ensures Concat(chunks) == Base64.Encode(raw)
    ensures |chunks| == (|Base64.Encode(raw)| + c.chunkSize - 1) / c.chunkSize
    ensures forall i :: 0 <= i < |chunks| ==> 0 < |chunks[i]| <= c.chunkSize
    ensures forall i :: 0 <= i < |chunks| - 1 ==> |chunks[i]| == c.chunkSize
    ensures chunks == [] <==> raw == []
  {
    SlicesShape(Base64.Encode(raw), c.chunkSize);
    Slices(Base64.Encode(raw), c.chunkSize)
  }

  datatype FileError = FileNotFound | FileTooLarge(size: nat)

  /** `validate_file`; `file` is the file's content, None when it does not
      exist. */
  function ValidateFile(c: Client, file: Option<seq<bv8>>): (r: Wrappers.Outcome<FileError>)
    ensures r.Pass? <==> file.Some? && |file.value| <= c.config.maxTotalSize
  {
    match file
    case None => Fail(FileNotFound)
    case Some(bytes) =>
      if |bytes| > c.config.maxTotalSize then Fail(FileTooLarge(|bytes|)) else Pass
  }

  /** `str(chunk_id).zfill(3) + "-" + chunk`. */
  function Label(id: nat, chunk: string): string
  {
    ZFill(DecimalString(id), 3) + "-" + chunk
  }

  /** A label is at least three digits that read back as the id, a hyphen,
      then the chunk. */
  lemma LabelLayout(id: nat, chunk: string)
    ensures var l := Label(id, chunk);
            && (id < 1000 ==> |l| == 4 + |chunk|)
            && (id >= 1000 ==> |l| == |DecimalString(id)| + 1 + |chunk| > 4 + |chunk|)
            && l[|l| - |chunk|..] == chunk && l[|l| - |chunk| - 1] == '-'
            && ParseDecimal(l[..|l| - |chunk| - 1]) == Some(id)
  {
    var digits := ZFill(DecimalString(id), 3);
    LabelParts(digits, chunk);
    DigitsLength(id);
    ParseZeroFilled(id, 3);
  }

  lemma DigitsLength(id: nat)
    ensures id < 1000 ==> |ZFill(DecimalString(id), 3)| == 3
    ensures id >= 1000 ==> |ZFill(DecimalString(id), 3)| == |DecimalString(id)| > 3
  {
    DecimalStringShort(id);
  }

  lemma LabelParts(digits: string, chunk: string)
    ensures var l := digits + "-" + chunk;
            l[..|digits|] == digits && l[|digits|] == '-' && l[|digits| + 1..] == chunk
  {
  }

  /** A label holds a dot only where its chunk does. */
  lemma LabelHasNoDot(id: nat, chunk: string)
    requires '.' !in chunk
    ensures '.' !in Label(id, chunk)
  {
    var digits := ZFill(DecimalString(id), 3);
    ParseZeroFilled(id, 3);
    var l := digits + "-" + chunk;
    forall i | 0 <= i < |l|
      ensures l[i] != '.'
    {
      if i < |digits| {
        assert l[i] == digits[i] && IsDigit(digits[i]);
      } else if i > |digits| {
        assert l[i] == chunk[i - |digits| - 1];
      }
    }
  }

  /** The query name `label.domain`; a chunk without dots makes the label
      the name's first dot-separated part. */
  function QueryName(id: nat, chunk: string, domain: string): (q: string)
    ensures '.' !in chunk ==> Before(q, '.') == Label(id, chunk)
  {
    var l := Label(id, chunk);
    if '.' in chunk then l + "." + domain
    else
      LabelHasNoDot(id, chunk);
      BeforeJoined(l, '.', domain);
      l + "." + domain
  }

  /** How the resolver ended a query: with an answer, with NXDOMAIN, with
      no answer record, or with any other error (a timeout, a refusal). */
  datatype QueryOutcome = Answered | NxDomain | NoAnswer | QueryFailed

  /** The chunk counts as sent: its label fits and the query did not fail. */
  predicate Accepted(id: nat, chunk: string, outcome: QueryOutcome)
  {
    |Label(id, chunk)| <= LabelMaxLength && outcome != QueryFailed
  }

  /** Below id 1000 a chunk is accepted exactly when it fits the chunk
      limit and its query did not fail; from id 1000 on a chunk of the
      largest size never is. */
  lemma AcceptedWhen(id: nat, chunk: string, outcome: QueryOutcome)
    ensures id < 1000 ==> (Accepted(id, chunk, outcome) <==> |chunk| <= MaxChunkByLabel && outcome != QueryFailed)
    ensures id >= 1000 && |chunk| >= MaxChunkByLabel ==> !Accepted(id, chunk, outcome)
  {
    LabelLayout(id, chunk);
  }

  /** The result of `send_chunk`: whether it reports success, the query it
      issued if any, and the client afterwards. */
  datatype Sent = Sent(ok: bool, query: Option<string>, client: Client)

  /** `send_chunk`, where `outcome` is what the resolver reports if asked. */
  function SendChunk(c: Client, id: nat, chunk: string, domain: string, outcome: QueryOutcome): (r: Sent)
    ensures r.ok <==> Accepted(id, chunk, outcome)
    ensures |Label(id, chunk)| > LabelMaxLength ==> r.query.None?
    ensures |Label(id, chunk)| <= LabelMaxLength ==> r.query == Some(QueryName(id, chunk, domain))
    ensures r.ok ==> r.client == c.(totalSent := c.totalSent + |chunk|)
    ensures !r.ok ==> r.client == c
  {
    var l := Label(id, chunk);
    if |l| > LabelMaxLength then Sent(false, None, c)
    else
      var name := l + "." + domain;
      match outcome
      case QueryFailed => Sent(false, Some(name), c)
      case _ => Sent(true, Some(name), c.(totalSent := c.totalSent + |chunk|))
  }

  /** With an id below 1000 and a chunk no longer than the client's chunk
      size, the label always fits. */
  lemma LabelFits(c: Client, id: nat, chunk: string)
    requires c.chunkSize <= MaxChunkByLabel && |chunk| <= c.chunkSize && id < 1000
    ensures |Label(id, chunk)| <= LabelMaxLength
  {
    DecimalStringShort(id);
  }

  /** From id 1000 on the id takes four digits, and a chunk of the largest
      size no longer fits. */
  lemma LabelOverflows(id: nat, chunk: string)
    requires id >= 1000 && |chunk| == MaxChunkByLabel
    ensures |Label(id, chunk)| > LabelMaxLength
  {
    DecimalStringShort(id);
  }

  /** The number of the first `n` chunks accepted, chunk `i` having id `i`. */
  function AcceptedCount(chunks: seq<string>, n: nat, outcomes: nat -> QueryOutcome): (count: nat)
    requires n <= |chunks|
    ensures count <= n
  {
    if n == 0 then 0
    else AcceptedCount(chunks, n - 1, outcomes) + if Accepted(n - 1, chunks[n - 1], outcomes(n - 1)) then 1 else 0
  }

  /** The characters of the accepted chunks among the first `n`. */
  function SentLength(chunks: seq<string>, n: nat, outcomes: nat -> QueryOutcome): nat
    requires n <= |chunks|
  {
    if n == 0 then 0
    else SentLength(chunks, n - 1, outcomes) + if Accepted(n - 1, chunks[n - 1], outcomes(n - 1)) then |chunks[n - 1]| else 0
  }

  /** The queries issued for the first `n` chunks, in order. */
  function Queries(chunks: seq<string>, n: nat, domain: string): seq<string>
    requires n <= |chunks|
  {
    if n == 0 then []
    else
      Queries(chunks, n - 1, domain)
      + if |Label(n - 1, chunks[n - 1])| <= LabelMaxLength then [QueryName(n - 1, chunks[n - 1], domain)] else []
  }

  /** When every one of the first `n` chunks is accepted, all `n` count. */
  lemma {:induction false} AllAcceptedCounted(chunks: seq<string>, n: nat, outcomes: nat -> QueryOutcome)
    requires n <= |chunks|
    requires forall i :: 0 <= i < n ==> Accepted(i, chunks[i], outcomes(i))
    ensures AcceptedCount(chunks, n, outcomes) == n
  {
    if n > 0 {
      AllAcceptedCounted(chunks, n - 1, outcomes);
    }
  }

  /** When all `n` count, every one of the first `n` chunks is accepted. */
  lemma {:induction false} CountedAllAccepted(chunks: seq<string>, n: nat, outcomes: nat -> QueryOutcome)
    requires n <= |chunks|
    requires AcceptedCount(chunks, n, outcomes) == n
    ensures forall i :: 0 <= i < n ==> Accepted(i, chunks[i], outcomes(i))
  {
    if n > 0 {
      var last := Accepted(n - 1, chunks[n - 1], outcomes(n - 1));
      assert AcceptedCount(chunks, n, outcomes) == AcceptedCount(chunks, n - 1, outcomes) + if last then 1 else 0;
      assert AcceptedCount(chunks, n - 1, outcomes) <= n - 1;
      assert last;
      CountedAllAccepted(chunks, n - 1, outcomes);
      forall i | 0 <= i < n
        ensures Accepted(i, chunks[i], outcomes(i))
      {
        if i == n - 1 {
          assert last;
        }
      }
    }
  }

  /** All of the first `n` chunks are accepted exactly when the count of
      accepted chunks is `n`. */
  lemma AllAccepted(chunks: seq<string>, n: nat, outcomes: nat -> QueryOutcome)
    requires n <= |chunks|
    ensures AcceptedCount(chunks, n, outcomes) == n
            <==> forall i :: 0 <= i < n ==> Accepted(i, chunks[i], outcomes(i))
  {
    if AcceptedCount(chunks, n, outcomes) == n {
      CountedAllAccepted(chunks, n, outcomes);
    }
    if forall i :: 0 <= i < n ==> Accepted(i, chunks[i], outcomes(i)) {
      AllAcceptedCounted(chunks, n, outcomes);
    }
  }

  /** One turn of the sending loop extends the count, the queries and the
      client's total by what chunk `i` contributes. */
  lemma SendStep(c: Client, chunks: seq<string>, i: nat, domain: string, outcomes: nat -> QueryOutcome)
    requires i < |chunks|
    ensures var sent := SendChunk(c.(totalSent := c.totalSent + SentLength(chunks, i, outcomes)),
                                  i, chunks[i], domain, outcomes(i));
            && AcceptedCount(chunks, i + 1, outcomes) == AcceptedCount(chunks, i, outcomes) + (if sent.ok then 1 else 0)
            && Queries(chunks, i + 1, domain)
               == Queries(chunks, i, domain) + (if sent.query.Some? then [sent.query.value] else [])
            && sent.client == c.(totalSent := c.totalSent + SentLength(chunks, i + 1, outcomes))
  {
  }

  /** `exfiltrate_file`: validates the file, then sends every chunk in turn
      (a failed chunk does not stop the others) and reports success when
      all of them were sent.  An empty file yields no chunk and is a
      failure: the success rate divides by the number of chunks. */
  method ExfiltrateFile(c: Client, file: Option<seq<bv8>>, domain: string, outcomes: nat -> QueryOutcome)
    returns (ok: bool, queries: seq<string>, after: Client)
    requires c.chunkSize > 0
    ensures ValidateFile(c, file).Fail? ==> !ok && queries == [] && after == c
    ensures ok <==> ValidateFile(c, file).Pass? && file.value != []
                    && forall i :: 0 <= i < |ChunkData(c, file.value)| ==>
                         Accepted(i, ChunkData(c, file.value)[i], outcomes(i))
    ensures ValidateFile(c, file).Pass? ==>
              var chunks := ChunkData(c, file.value);
              queries == Queries(chunks, |chunks|, domain)
              && after == c.(totalSent := c.totalSent + SentLength(chunks, |chunks|, outcomes))
  {
    if ValidateFile(c, file).Fail? {
      return false, [], c;
    }
    var chunks := ChunkData(c, file.value);
    var successCount := 0;
    queries, after := [], c;
    var i := 0;
    while i < |chunks|
      invariant 0 <= i <= |chunks|
      invariant successCount == AcceptedCount(chunks, i, outcomes)
      invariant queries == Queries(chunks, i, domain)
      invariant after == c.(totalSent := c.totalSent + SentLength(chunks, i, outcomes))
    {
      var sent := SendChunk(after, i, chunks[i], domain, outcomes(i));
      SendStep(c, chunks, i, domain, outcomes);
      if sent.query.Some? {
        queries := queries + [sent.query.value];
      }
      if sent.ok {
        successCount := successCount + 1;
      }
      after := sent.client;
      i := i + 1;
    }
    AllAccepted(chunks, |chunks|, outcomes);
    ok := |chunks| > 0 && successCount == |chunks|;
  }

  /** With the largest chunk size, a file of more than 1001 chunks can never
      be sent whole: chunk 1000 is full and its label is one character too
      long. */
  lemma ThousandthChunkRejected(c: Client, raw: seq<bv8>, outcomes: nat -> QueryOutcome)
    requires c.chunkSize == MaxChunkByLabel
    requires |ChunkData(c, raw)| > 1001
    ensures !Accepted(1000, ChunkData(c, raw)[1000], outcomes(1000))
  {
    LabelOverflows(1000, ChunkData(c, raw)[1000]);
  }
}
