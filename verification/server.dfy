/** The exfiltration server's resolver: it reads a chunk id and a Base64
    payload from the first label of each query name, stores the decoded
    text by id, and finally joins the stored texts in ascending id order. */
module Server {
  import opened Wrappers
  import opened Text
  import Base64

  /** `data_chunks`: decoded text by chunk id, with the ids in the order
      they were first stored, which is the iteration order of a Python
      dict. */
  datatype Store = Store(chunks: map<nat, string>, order: seq<nat>)

  /** Each id is listed once, and the listed ids are the stored ones. */
  predicate Valid(st: Store)
  {
    (forall i, j :: 0 <= i < j < |st.order| ==> st.order[i] != st.order[j])
    && (forall k :: k in st.chunks ==> k in st.order)
    && (forall k :: k in st.order ==> k in st.chunks)
  }

  const Empty: Store := Store(map[], [])

  /** A reply: the answer records, one named after each stored id, or an
      NXDOMAIN reply. */
  datatype Reply = Answer(records: seq<nat>) | NameError

  /** The reply's RCODE (section 4.1.1 of RFC 1035): 0 (no error) for an
      answer, as a reply built from the request carries by default, and 3
      for a name error. */
  function RCode(r: Reply): (code: nat)
    ensures code == 0 || code == 3
    ensures code == 0 <==> r.Answer?
    ensures code == 3 <==> r.NameError?
  {
    if r.NameError? then 3 else 0
  }

  datatype Record = Record(id: nat, text: string)

  /** The record a query name carries: its first label split at the first
      `-` into a decimal id and a Base64 payload whose bytes `utf8` turns
      into text.  None when any step fails. */
  function ParseRecord(qname: string, utf8: seq<bv8> -> Option<string>): (r: Option<Record>)
    ensures '-' !in Before(qname, '.') ==> r.None?
    ensures r.Some? ==> ParseDecimal(Before(Before(qname, '.'), '-')) == Some(r.value.id)
    ensures var first := Before(qname, '.');
            r.Some? <==> '-' in first
                         && ParseDecimal(Before(first, '-')).Some?
                         && Base64.Decode(After(first, '-')).Success?
                         && utf8(Base64.Decode(After(first, '-')).value).Some?
    ensures var first := Before(qname, '.');
            r.Some? ==> r.value.text == utf8(Base64.Decode(After(first, '-')).value).value
  {
    match SplitOnce(Before(qname, '.'), '-')
    case None => None
    case Some((idText, encoded)) =>
      match ParseDecimal(idText)
      case None => None
      case Some(id) =>
        match Base64.Decode(encoded)
        case Failure(_) => None
        case Success(bytes) =>
          match utf8(bytes)
          case None => None
          case Some(text) => Some(Record(id, text))
  }

  /** The records named by the stored ids, in storage order: the order in
      which `Upsert` first stored each id. */
  function DataChunksResponse(st: Store): (records: seq<nat>)
    requires Valid(st)
    ensures records == st.order
    ensures |records| == |st.chunks|
    ensures forall k :: k in records <==> k in st.chunks
  {
    DistinctCardinality(st.order, st.chunks.Keys);
    st.order
  }

  /** Stores `rec.text` under `rec.id`, replacing any earlier text for that
      id; a new id goes last in the storage order. */
  function Upsert(st: Store, rec: Record): (st': Store)
    requires Valid(st)
    ensures Valid(st')
    ensures st'.chunks == st.chunks[rec.id := rec.text]
    ensures st'.order == if rec.id in st.chunks then st.order else st.order + [rec.id]
  {
    if rec.id in st.chunks then Store(st.chunks[rec.id := rec.text], st.order)
    else Store(st.chunks[rec.id := rec.text], st.order + [rec.id])
  }

  /** `resolve`: a query that carries a record stores it and is answered
      with one record per stored id; any other query gets a name error and
      changes nothing. */
  function Resolve(st: Store, qname: string, utf8: seq<bv8> -> Option<string>): (r: (Store, Reply))
    requires Valid(st)
    ensures Valid(r.0)
    ensures ParseRecord(qname, utf8).None? ==> r == (st, NameError) && RCode(r.1) == 3
    ensures ParseRecord(qname, utf8).Some? ==>
              r.0 == Upsert(st, ParseRecord(qname, utf8).value) && r.1 == Answer(DataChunksResponse(r.0))
    ensures RCode(r.1) == 0 <==> ParseRecord(qname, utf8).Some?
  {
    match ParseRecord(qname, utf8)
    case None => (st, NameError)
    case Some(rec) =>
      var st' := Upsert(st, rec);
      (st', Answer(DataChunksResponse(st')))
  }

  /** Storing a record leaves the text of every other id as it was. */
  lemma UpsertKeepsOthers(st: Store, rec: Record, k: nat)
    requires Valid(st) && k in st.chunks && k != rec.id
    ensures k in Upsert(st, rec).chunks && Upsert(st, rec).chunks[k] == st.chunks[k]
  {
  }

  /** Records with different ids can arrive in either order: the stored
      texts are the same. */
  lemma UpsertCommutes(st: Store, r1: Record, r2: Record)
    requires Valid(st) && r1.id != r2.id
    ensures Upsert(Upsert(st, r1), r2).chunks == Upsert(Upsert(st, r2), r1).chunks
  {
    var m1 := st.chunks[r1.id := r1.text][r2.id := r2.text];
    var m2 := st.chunks[r2.id := r2.text][r1.id := r1.text];
    assert m1.Keys == m2.Keys;
    assert forall k :: k in m1 ==> m1[k] == m2[k];
  }

  /** The elements of a sequence without repetition are as many as its
      length. */
  lemma {:induction false} DistinctCardinality(s: seq<nat>, elems: set<nat>)
    requires forall i, j :: 0 <= i < j < |s| ==> s[i] != s[j]
    requires forall k :: k in elems <==> k in s
    ensures |elems| == |s|
    decreases |s|
  {
    if s != [] {
      var rest := s[1..];
      var others := elems - {s[0]};
      assert s == [s[0]] + rest;
      assert forall j :: 0 <= j < |rest| ==> rest[j] == s[j + 1] && s[j + 1] != s[0];
      assert s[0] !in rest;
      DistinctCardinality(rest, others);
    }
  }

  /** Every non-empty finite set of ids has a least element. */
  lemma {:induction false} HasLeast(keys: set<nat>, x: nat)
    requires x in keys
    ensures exists m :: m in keys && forall k :: k in keys ==> m <= k
    decreases x
  {
    if exists y :: y in keys && y < x {
      var y :| y in keys && y < x;
      HasLeast(keys, y);
    } else {
      assert forall k :: k in keys ==> x <= k;
    }
  }

  predicate Increasing(s: seq<nat>)
  {
    forall i, j :: 0 <= i < j < |s| ==> s[i] < s[j]
  }

  /** The smallest element of a non-empty set of ids. */
  function Least(keys: set<nat>): (m: nat)
    requires keys != {}
    ensures m in keys && forall k :: k in keys ==> m <= k
  {
    var x :| x in keys;
    HasLeast(keys, x);
    var m :| m in keys && forall k :: k in keys ==> m <= k;
    m
  }

  lemma IncreasingCons(m: nat, rest: seq<nat>)
    requires Increasing(rest)
    requires forall i :: 0 <= i < |rest| ==> m < rest[i]
    ensures Increasing([m] + rest)
  {
    var r := [m] + rest;
    forall i, j | 0 <= i < j < |r|
      ensures r[i] < r[j]
    {
      assert r[j] == rest[j - 1];
      if i > 0 {
        assert r[i] == rest[i - 1];
      }
    }
  }

  /** `sorted(data_chunks)`: the ids in ascending order. */
  function SortedIds(keys: set<nat>): (r: seq<nat>)
    ensures Increasing(r)
    ensures forall k :: k in r <==> k in keys
    decreases keys
  {
    if keys == {} then []
    else
      var m := Least(keys);
      var rest := SortedIds(keys - {m});
      IncreasingCons(m, rest);
      [m] + rest
  }

  /** The head of an increasing sequence is its least element, and the
      tail holds exactly the other elements. */
  lemma IncreasingHead(a: seq<nat>)
    requires Increasing(a) && a != []
    ensures forall k :: k in a ==> a[0] <= k
    ensures forall k :: k in a[1..] <==> k in a && k != a[0]
  {
    forall k | k in a
      ensures a[0] <= k && (k in a[1..] <==> k != a[0])
    {
      var i :| 0 <= i < |a| && a[i] == k;
      if i > 0 {
        assert a[1..][i - 1] == k;
      } else {
        assert forall j :: 0 <= j < |a[1..]| ==> a[1..][j] == a[j + 1] && a[0] < a[j + 1];
      }
    }
    assert forall k :: k in a[1..] ==> k in a;
  }

  /** Two increasing sequences with the same elements are equal. */
  lemma {:induction false} IncreasingUnique(a: seq<nat>, b: seq<nat>)
    requires Increasing(a) && Increasing(b)
    requires forall k :: k in a <==> k in b
    ensures a == b
    decreases |a|
  {
    assert a != [] ==> a[0] in b;
    assert b != [] ==> b[0] in a;
    if a != [] {
      IncreasingHead(a);
      IncreasingHead(b);
      assert a[0] == b[0];
      assert Increasing(a[1..]) && Increasing(b[1..]);
      IncreasingUnique(a[1..], b[1..]);
      assert a == [a[0]] + a[1..] && b == [b[0]] + b[1..];
    }
  }

  /** The texts of `ids`, joined in order. */
  function Joined(chunks: map<nat, string>, ids: seq<nat>): string
    requires forall k :: k in ids ==> k in chunks
  {
    if ids == [] then [] else Joined(chunks, ids[..|ids| - 1]) + chunks[ids[|ids| - 1]]
  }

  /** What `save_file` appends to the output file: the stored texts in
      ascending id order. */
  function SaveContent(st: Store): (content: string)
    ensures forall ids :: Increasing(ids) && (forall k :: k in ids <==> k in st.chunks) ==>
              content == Joined(st.chunks, ids)
  {
    SortedIdsUnique(st.chunks.Keys);
    Joined(st.chunks, SortedIds(st.chunks.Keys))
  }

  /** The ascending listing of a set of ids is the only one. */
  lemma SortedIdsUnique(keys: set<nat>)
    ensures forall ids :: Increasing(ids) && (forall k :: k in ids <==> k in keys) ==> ids == SortedIds(keys)
  {
    forall ids | Increasing(ids) && (forall k :: k in ids <==> k in keys)
      ensures ids == SortedIds(keys)
    {
      IncreasingUnique(ids, SortedIds(keys));
    }
  }

  /** The texts of ids that other texts do not change. */
  lemma {:induction false} JoinedFrame(m1: map<nat, string>, m2: map<nat, string>, ids: seq<nat>)
    requires forall k :: k in ids ==> k in m1 && k in m2 && m1[k] == m2[k]
    ensures Joined(m1, ids) == Joined(m2, ids)
    decreases |ids|
  {
    if ids != [] {
      JoinedFrame(m1, m2, ids[..|ids| - 1]);
    }
  }

  lemma JoinedSnoc(chunks: map<nat, string>, ids: seq<nat>, x: nat)
    requires forall k :: k in ids ==> k in chunks
    requires x in chunks
    ensures Joined(chunks, ids + [x]) == Joined(chunks, ids) + chunks[x]
  {
    assert (ids + [x])[..|ids|] == ids;
  }

  lemma IncreasingSnoc(s: seq<nat>, x: nat)
    requires Increasing(s)
    requires forall i :: 0 <= i < |s| ==> s[i] < x
    ensures Increasing(s + [x])
  {
    var r := s + [x];
    forall i, j | 0 <= i < j < |r|
      ensures r[i] < r[j]
    {
      assert r[i] == s[i];
      if j < |s| {
        assert r[j] == s[j];
      }
    }
  }

  /** Adding an id above every other puts it last. */
  lemma SortedSnoc(keys: set<nat>, id: nat)
    requires forall k :: k in keys ==> k < id
    ensures SortedIds(keys + {id}) == SortedIds(keys) + [id]
  {
    var before := SortedIds(keys);
    assert forall i :: 0 <= i < |before| ==> before[i] in keys;
    IncreasingSnoc(before, id);
    var after := before + [id];
    forall k
      ensures k in after <==> k in keys + {id}
    {
      assert k in after <==> k in before || k == id;
    }
    IncreasingUnique(SortedIds(keys + {id}), after);
  }

  /** A record whose id is above every stored id appends its text to the
      saved content. */
  lemma SaveAppendsHighest(st: Store, id: nat, text: string)
    requires forall k :: k in st.chunks ==> k < id
    ensures SaveContent(st.(chunks := st.chunks[id := text]))
            == SaveContent(st) + text
  {
    var m := st.chunks[id := text];
    var before := SortedIds(st.chunks.Keys);
    assert m.Keys == st.chunks.Keys + {id};
    SortedSnoc(st.chunks.Keys, id);
    JoinedSnoc(m, before, id);
    forall k | k in before
      ensures k in st.chunks && k in m && st.chunks[k] == m[k]
    {
      assert k in st.chunks.Keys;
      assert k != id;
    }
    JoinedFrame(st.chunks, m, before);
  }
}
