/** The circular list of transmit states is a bounded least-recently-used cache of conversations. */
module VjLru {
  import opened Bytes
  import opened VjHeader
  import opened VjCompress
  import opened VjRoundTrip
  import opened VjStep

  /** A conversation and the header last sent for it. */
  datatype Entry = Entry(conn: Conn, header: seq<byte>)

  function Without(cache: seq<Entry>, c: Conn): (r: seq<Entry>) {
    if cache == [] then []
    else if cache[0].conn == c then Without(cache[1..], c)
    else [cache[0]] + Without(cache[1..], c)
  }

  /** The cache that the list should be: most recent first, one entry a conversation, and at most
      16 of them, the least recently used one making room. */
  function Touch(cache: seq<Entry>, c: Conn, header: seq<byte>): (r: seq<Entry>) {
    var all := [Entry(c, header)] + Without(cache, c);
    if |all| > 16 then all[..16] else all
  }

  function EntryOf(t: Header): (e: Entry) { Entry(Key(t), t[..HeaderLen(t)]) }

  /** The slots never used are the least recent ones, and no two used slots share a conversation. */
  ghost predicate LruInvariant(tx: Tx) {
    && TxGood(tx)
    && (forall j, k :: 0 <= j < k < MAX_STATES && Used(tx.hdrs[tx.order[k]]) ==>
          Used(tx.hdrs[tx.order[j]]) && Key(tx.hdrs[tx.order[j]]) != Key(tx.hdrs[tx.order[k]]))
  }

  function Count(tx: Tx, k: nat): (n: nat)
    requires tx.Valid() && k <= MAX_STATES
    ensures k <= n <= MAX_STATES
    ensures forall j :: k <= j < n ==> Used(tx.hdrs[tx.order[j]])
    ensures n < MAX_STATES ==> !Used(tx.hdrs[tx.order[n]])
    decreases MAX_STATES - k
  {
    if k == MAX_STATES || !Used(tx.hdrs[tx.order[k]]) then k else Count(tx, k + 1)
  }

  /** The entries of the used slots, in the order of the list. */
  function Cache(tx: Tx): (r: seq<Entry>)
    requires tx.Valid()
    ensures |r| == Count(tx, 0)
  {
    seq(Count(tx, 0), k requires 0 <= k < Count(tx, 0) => EntryOf(tx.hdrs[tx.order[k]]))
  }

  lemma {:induction false} WithoutAbsent(cache: seq<Entry>, c: Conn)
    requires forall k :: 0 <= k < |cache| ==> cache[k].conn != c
    ensures Without(cache, c) == cache
  {
    if cache != [] {
      WithoutAbsent(cache[1..], c);
    }
  }

  lemma {:induction false} WithoutUnique(cache: seq<Entry>, c: Conn, k: nat)
    requires k < |cache| && cache[k].conn == c
    requires forall j :: 0 <= j < |cache| && j != k ==> cache[j].conn != c
    ensures Without(cache, c) == cache[..k] + cache[k + 1..]
  {
    if k == 0 {
      WithoutAbsent(cache[1..], c);
    } else {
      WithoutUnique(cache[1..], c, k - 1);
      assert cache[..k] + cache[k + 1..] == [cache[0]] + (cache[1..][..k - 1] + cache[1..][k..]);
    }
  }

  lemma HeaderPrefix(t: Header, p: seq<byte>)
    requires Segment(p)
    ensures Overwrite(t, p[..HeaderLen(p)])[..HeaderLen(p)] == p[..HeaderLen(p)]
  {
  }

  /** The header at a place of the list before and after a packet is filed. */
  lemma FiledAt(tx: Tx, p: seq<byte>, a: nat)
    requires TxGood(tx) && HasTcp(p) && Segment(p) && a < MAX_STATES
    ensures File(tx, p).Valid()
    ensures var k, tx' := Place(tx, p), File(tx, p);
            var now := tx'.hdrs[tx'.order[a]];
            if a == 0 then Used(now) && EntryOf(now) == Entry(Key(p), p[..HeaderLen(p)])
            else now == tx.hdrs[tx.order[if a <= k then a - 1 else a]]
  {
    hide Key, HeaderLen, Overwrite, ToFront, Position;
    var k, tx' := Place(tx, p), File(tx, p);
    FileValid(tx, p);
    ToFrontAt(tx.order, k, a);
    var i := SlotFor(tx, p);
    OverwriteSegment(tx.hdrs[i], p);
    assert tx'.order == ToFront(tx.order, k) && tx'.hdrs[i] == Overwrite(tx.hdrs[i], p[..HeaderLen(p)]);
    if a == 0 {
      HeaderPrefix(tx.hdrs[i], p);
      assert tx'.order[0] == i;
    } else {
      var b := if a <= k then a - 1 else a;
      assert tx'.order[a] == ToFront(tx.order, k)[a] == tx.order[b];
      assert tx.order[b] != i;
    }
  }

  /** No used slot but the one chosen is filed under the conversation of `p`. */
  lemma NotElsewhere(tx: Tx, p: seq<byte>, j: nat)
    requires LruInvariant(tx) && HasTcp(p) && j < MAX_STATES && j != Place(tx, p) && Used(tx.hdrs[tx.order[j]])
    ensures Key(tx.hdrs[tx.order[j]]) != Key(p)
  {
    hide Key, Used;
  }

  lemma FilePreservesLru(tx: Tx, p: seq<byte>)
    requires LruInvariant(tx) && HasTcp(p) && Segment(p)
    ensures LruInvariant(File(tx, p))
  {
    hide Segment, HeaderLen, File, Used, Key;
    FileGood(tx, p);
    var k, tx' := Place(tx, p), File(tx, p);
    forall a | 0 <= a < MAX_STATES { FiledAt(tx, p, a); }
    forall i, j | 0 <= i < j < MAX_STATES && Used(tx'.hdrs[tx'.order[j]])
      ensures Used(tx'.hdrs[tx'.order[i]]) && Key(tx'.hdrs[tx'.order[i]]) != Key(tx'.hdrs[tx'.order[j]])
    {
      var j' := if j <= k then j - 1 else j;
      assert tx'.hdrs[tx'.order[j]] == tx.hdrs[tx.order[j']];
      if i == 0 {
        assert EntryOf(tx'.hdrs[tx'.order[0]]).conn == Key(p);
        NotElsewhere(tx, p, j');
      } else {
        var i' := if i <= k then i - 1 else i;
        assert tx'.hdrs[tx'.order[i]] == tx.hdrs[tx.order[i']];
      }
    }
  }

  lemma CountIs(tx: Tx, k: nat, n: nat)
    requires tx.Valid() && k <= n <= MAX_STATES
    requires forall j :: k <= j < n ==> Used(tx.hdrs[tx.order[j]])
    requires n < MAX_STATES ==> !Used(tx.hdrs[tx.order[n]])
    ensures Count(tx, k) == n
  {
    hide Used;
  }

  lemma CountFiled(tx: Tx, p: seq<byte>) returns (n': nat)
    requires LruInvariant(tx) && HasTcp(p) && Segment(p) && File(tx, p).Valid()
    ensures n' == Count(File(tx, p), 0) == if Place(tx, p) < Count(tx, 0) then Count(tx, 0) else Count(tx, 0) + 1
  {
    hide Segment, HeaderLen, File, Used, Key, EntryOf, Count, Position, Place;
    var k, tx', n := Place(tx, p), File(tx, p), Count(tx, 0);
    n' := if k < n then n else n + 1;
    assert n' <= MAX_STATES;
    forall a | 0 <= a < n' ensures Used(tx'.hdrs[tx'.order[a]]) {
      FiledAt(tx, p, a);
    }
    if n' < MAX_STATES {
      FiledAt(tx, p, n');
      var b := if n' <= k then n' - 1 else n';
      assert !Used(tx.hdrs[tx.order[b]]);
    }
    CountIs(tx', 0, n');
  }

  /** What the cache holds once a packet is filed. */
  lemma CacheFiled(tx: Tx, p: seq<byte>)
    requires LruInvariant(tx) && HasTcp(p) && Segment(p) && File(tx, p).Valid()
    ensures var k, cache := Place(tx, p), Cache(tx);
            Cache(File(tx, p)) == [Entry(Key(p), p[..HeaderLen(p)])]
                                  + if k < |cache| then cache[..k] + cache[k + 1..] else cache
  {
    hide HeaderLen, File, Used, Key, EntryOf, Count, Position, Place;
    var k, tx', n := Place(tx, p), File(tx, p), Count(tx, 0);
    var n' := CountFiled(tx, p);
    var cache, cache' := Cache(tx), Cache(tx');
    forall a | 0 <= a < n'
      ensures cache'[a] == if a == 0 then Entry(Key(p), p[..HeaderLen(p)]) else cache[if a <= k then a - 1 else a]
    {
      FiledAt(tx, p, a);
    }
  }

  lemma EntryConn(t: Header)
    ensures EntryOf(t).conn == Key(t)
  {
  }

  /** With a cache of distinct conversations, touching moves an entry to the front, adds one, or
      replaces the last. */
  lemma TouchCases(cache: seq<Entry>, c: Conn, header: seq<byte>, k: nat)
    requires |cache| <= MAX_STATES && k < MAX_STATES
    requires forall j :: 0 <= j < |cache| && j != k ==> cache[j].conn != c
    requires k < |cache| && cache[k].conn != c ==> k == MAX_STATES - 1
    ensures Touch(cache, c, header)
            == [Entry(c, header)] + if k < |cache| then cache[..k] + cache[k + 1..] else cache
  {
    if k < |cache| && cache[k].conn == c {
      WithoutUnique(cache, c, k);
    } else {
      WithoutAbsent(cache, c);
    }
  }

  /** Search, reuse and relinking together are one step of the bounded LRU cache. */
  lemma FileIsTouch(tx: Tx, p: seq<byte>)
    requires LruInvariant(tx) && HasTcp(p) && Segment(p)
    ensures LruInvariant(File(tx, p))
    ensures Cache(File(tx, p)) == Touch(Cache(tx), Key(p), p[..HeaderLen(p)])
  {
    hide HeaderLen, File, Used, Key, Touch, EntryOf, Count;
    FilePreservesLru(tx, p);
    CacheFiled(tx, p);
    var k, cache := Place(tx, p), Cache(tx);
    forall j | 0 <= j < |cache| ensures cache[j].conn == Key(tx.hdrs[tx.order[j]]) {
      EntryConn(tx.hdrs[tx.order[j]]);
    }
    forall j | 0 <= j < |cache| && j != k ensures cache[j].conn != Key(p) {
      NotElsewhere(tx, p, j);
    }
    TouchCases(cache, Key(p), p[..HeaderLen(p)], k);
  }

  // ---- runs of the compressor ----

  /** One call of the compressor. */
  datatype Call = Call(p: seq<byte>, cid: bool)

  ghost predicate Callable(cs: seq<Call>) { forall k :: 0 <= k < |cs| ==> Admissible(cs[k].p) }

  ghost function CacheRun(cs: seq<Call>): (r: seq<Entry>)
    requires Callable(cs)
  {
    if cs == [] then [] else
    var n := |cs| - 1;
    var before, p := CacheRun(cs[..n]), cs[n].p;
    if Compressible(p) then Touch(before, Key(p), p[..HeaderLen(p)]) else before
  }

  lemma CompressGood(tx: Tx, p: seq<byte>, cid: bool)
    requires TxGood(tx) && Admissible(p)
    ensures TxGood(Compress(tx, p, cid).tx)
  {
    if Compressible(p) {
      FileGood(tx, p);
    }
  }

  ghost function TxRun(cs: seq<Call>): (tx: Tx)
    requires Callable(cs)
    ensures TxGood(tx)
  {
    if cs == [] then InitialGood(); VjCompress.Initial() else
    var n := |cs| - 1;
    CompressGood(TxRun(cs[..n]), cs[n].p, cs[n].cid);
    Compress(TxRun(cs[..n]), cs[n].p, cs[n].cid).tx
  }

  lemma InitialCache()
    ensures LruInvariant(VjCompress.Initial()) && Cache(VjCompress.Initial()) == []
  {
  }

  lemma CompressFiles(tx: Tx, p: seq<byte>, cid: bool)
    requires TxGood(tx) && Admissible(p)
    ensures Compress(tx, p, cid).tx == if Compressible(p) then File(tx, p) else tx
  {
    hide CodeIn, File;
  }

  /** From initialisation on, through every run, whether connection ids may be left out or not, the
      transmit states are exactly the LRU cache of the conversations sent, each with the header last
      sent for it. */
  lemma {:induction false} RunIsLruCache(cs: seq<Call>)
    requires Callable(cs)
    ensures LruInvariant(TxRun(cs)) && Cache(TxRun(cs)) == CacheRun(cs)
  {
    hide HeaderLen, File, Used, Key, Touch, Unfragmented, LruInvariant, Cache, Compress, PlainAck, TcpAt;
    if cs == [] {
      InitialCache();
    } else {
      var n := |cs| - 1;
      RunIsLruCache(cs[..n]);
      CompressFiles(TxRun(cs[..n]), cs[n].p, cs[n].cid);
      if Compressible(cs[n].p) {
        assert HasTcp(cs[n].p);
        FileIsTouch(TxRun(cs[..n]), cs[n].p);
      }
    }
  }

  lemma UnusedBeyond(tx: Tx, k: nat)
    requires LruInvariant(tx) && Count(tx, 0) <= k < MAX_STATES
    ensures !Used(tx.hdrs[tx.order[k]])
  {
    hide Key, Used, Count;
    var n := Count(tx, 0);
    assert !Used(tx.hdrs[tx.order[n]]);
  }

  lemma CodedKey(tx: Tx, p: seq<byte>)
    requires TxGood(tx) && HasTcp(p) && Segment(p) && CodeIn(tx, p).Coded?
    ensures Key(tx.hdrs[SlotFor(tx, p)]) == Key(p)
  {
    hide Code, Key;
  }

  /** A coded packet is coded against the cache's entry for its conversation. */
  lemma CodedAgainstCache(tx: Tx, p: seq<byte>)
    requires LruInvariant(tx) && HasTcp(p) && Segment(p) && CodeIn(tx, p).Coded?
    ensures Place(tx, p) < |Cache(tx)| && Cache(tx)[Place(tx, p)] == EntryOf(tx.hdrs[SlotFor(tx, p)])
    ensures Cache(tx)[Place(tx, p)].conn == Key(p)
  {
    hide CodeIn, Key, Used, Segment;
    CodedSlot(tx, p);
    var k := Place(tx, p);
    if k >= Count(tx, 0) {
      UnusedBeyond(tx, k);
    }
    CodedKey(tx, p);
  }

  // ---- no two slots for one conversation ----

  ghost function Elements(s: seq<nat>): (r: set<nat>) { set x | x in s }

  lemma {:induction false} DistinctCount(s: seq<nat>)
    requires forall a, b :: 0 <= a < b < |s| ==> s[a] != s[b]
    ensures |Elements(s)| == |s|
  {
    if s != [] {
      var n := |s| - 1;
      DistinctCount(s[..n]);
      assert s == s[..n] + [s[n]];
      assert Elements(s) == Elements(s[..n]) + {s[n]};
    }
  }

  ghost function Below(n: nat): (r: set<nat>)
    ensures |r| == n && forall i: nat :: i in r <==> i < n
  {
    if n == 0 then {} else Below(n - 1) + {n - 1}
  }

  lemma SameSizeSubset(a: set<nat>, b: set<nat>)
    requires a <= b && |a| == |b|
    ensures a == b
  {
    assert b == a + (b - a) && |b| == |a| + |b - a|;
  }

  /** As many different numbers as there are below `n` leave none of them out. */
  lemma PlaceOf(s: seq<nat>, n: nat, i: nat) returns (k: nat)
    requires |s| == n && i < n && forall a :: 0 <= a < n ==> s[a] < n
    requires forall a, b :: 0 <= a < b < n ==> s[a] != s[b]
    ensures k < n && s[k] == i
  {
    DistinctCount(s);
    SameSizeSubset(Elements(s), Below(n));
    assert i in Elements(s);
    k :| 0 <= k < n && s[k] == i;
  }

  lemma UsedKeysDiffer(tx: Tx, i: nat, j: nat)
    requires LruInvariant(tx) && i < MAX_STATES && j < MAX_STATES && i != j
    requires Used(tx.hdrs[i]) && Used(tx.hdrs[j])
    ensures Key(tx.hdrs[i]) != Key(tx.hdrs[j])
  {
    hide Used, Key;
    var a := PlaceOf(tx.order, MAX_STATES, i);
    var b := PlaceOf(tx.order, MAX_STATES, j);
    if a < b {
      assert Used(tx.hdrs[tx.order[b]]);
    } else {
      assert Used(tx.hdrs[tx.order[a]]);
    }
  }
}
