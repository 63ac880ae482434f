/**
 * The header (index) file `<name>_h.dat` and its in-memory image: a
 * sequence of (_id, registry_position) pairs, each stored as two native
 * long longs.
 */
module IndexFile {
  import opened Results
  import opened Bytes

  const ID_BYTES := 8        // sizeof(HeaderFile::_id)
  const POSITION_BYTES := 8  // sizeof(HeaderFile::registry_position)
  const ENTRY_SIZE := ID_BYTES + POSITION_BYTES

  /** The smallest long long, `numeric_limits<long long>::min()`. */
  const INT64_MIN: int := -0x8000_0000_0000_0000

  /** One element of `header_t`: (_id, registry_position). */
  type Entry = (int, int)

  predicate EntryInRange(e: Entry) {
    InSignedRange(e.0, ID_BYTES) && InSignedRange(e.1, POSITION_BYTES)
  }

  /** `insertOnHeaderFile`: the 16 bytes appended to the index file for one entry. */
  function EncodeEntry(e: Entry): (bs: seq<Byte>)
    requires EntryInRange(e)
    ensures |bs| == ENTRY_SIZE
  {
    EncodeInt(e.0, ID_BYTES) + EncodeInt(e.1, POSITION_BYTES)
  }

  /** The index file holding the given entries, in order. */
  function EncodeIndex(h: seq<Entry>): (bs: seq<Byte>)
    requires forall k :: 0 <= k < |h| ==> EntryInRange(h[k])
    ensures |bs| == ENTRY_SIZE * |h|
  {
    if h == [] then [] else EncodeEntry(h[0]) + EncodeIndex(h[1..])
  }

  /**
   * `loadHeader`: the entries read from the index file, one per complete
   * 16-byte pair, in file order; a trailing partial pair is dropped.
   */
  function ParseIndex(f: seq<Byte>): (h: seq<Entry>)
    decreases |f|
  {
    if |f| < ENTRY_SIZE then []
    else [(Signed(f[..ID_BYTES]), Signed(f[ID_BYTES..ENTRY_SIZE]))] + ParseIndex(f[ENTRY_SIZE..])
  }

  /** The index holds one entry per complete pair of the file. */
  lemma {:induction false} ParseIndexLength(f: seq<Byte>)
    ensures |ParseIndex(f)| == |f| / ENTRY_SIZE
    decreases |f|
  {
    if |f| >= ENTRY_SIZE {
      ParseIndexLength(f[ENTRY_SIZE..]);
    }
  }

  /** Reading one encoded entry gives the entry back. */
  lemma ParseEntry(e: Entry, rest: seq<Byte>)
    requires EntryInRange(e)
    ensures ParseIndex(EncodeEntry(e) + rest) == [e] + ParseIndex(rest)
  {
    var f := EncodeEntry(e) + rest;
    assert f[..ID_BYTES] == EncodeInt(e.0, ID_BYTES);
    assert f[ID_BYTES..ENTRY_SIZE] == EncodeInt(e.1, POSITION_BYTES);
    assert f[ENTRY_SIZE..] == rest;
    SignedRoundTrip(e.0, ID_BYTES);
    SignedRoundTrip(e.1, POSITION_BYTES);
  }

  /** Reloading an index file written entry by entry reproduces the index. */
  lemma {:induction false} ReloadReproducesIndex(h: seq<Entry>)
    requires forall k :: 0 <= k < |h| ==> EntryInRange(h[k])
    ensures ParseIndex(EncodeIndex(h)) == h
  {
    if h != [] {
      ParseEntry(h[0], EncodeIndex(h[1..]));
      ReloadReproducesIndex(h[1..]);
    }
  }

  /**
   * Appending one entry's bytes to a file made of whole pairs appends that
   * entry to what the file loads as.
   */
  lemma {:induction false} ParseAppendEntry(f: seq<Byte>, e: Entry)
    requires |f| % ENTRY_SIZE == 0 && EntryInRange(e)
    ensures ParseIndex(f + EncodeEntry(e)) == ParseIndex(f) + [e]
    decreases |f|
  {
    if |f| == 0 {
      assert f + EncodeEntry(e) == EncodeEntry(e) + [];
      ParseEntry(e, []);
    } else {
      var g := f + EncodeEntry(e);
      assert g[..ID_BYTES] == f[..ID_BYTES];
      assert g[ID_BYTES..ENTRY_SIZE] == f[ID_BYTES..ENTRY_SIZE];
      assert g[ENTRY_SIZE..] == f[ENTRY_SIZE..] + EncodeEntry(e);
      ParseAppendEntry(f[ENTRY_SIZE..], e);
    }
  }

  /** A trailing partial pair (a crash mid-append) is silently discarded. */
  lemma {:induction false} ParseDropsPartialTail(f: seq<Byte>, tail: seq<Byte>)
    requires |f| % ENTRY_SIZE == 0 && |tail| < ENTRY_SIZE
    ensures ParseIndex(f + tail) == ParseIndex(f)
    decreases |f|
  {
    if |f| > 0 {
      var g := f + tail;
      assert g[..ID_BYTES] == f[..ID_BYTES];
      assert g[ID_BYTES..ENTRY_SIZE] == f[ID_BYTES..ENTRY_SIZE];
      assert g[ENTRY_SIZE..] == f[ENTRY_SIZE..] + tail;
      ParseDropsPartialTail(f[ENTRY_SIZE..], tail);
    }
  }

  /**
   * A crash that leaves half of entry (1, r) behind, followed by a reload and
   * an `insert` of entry (1, r) again: the new pair is appended after the
   * partial tail, so the next reload pairs the old half with the new _id and
   * reads registry position 1 for _id 1 instead of r.
   */
  lemma AppendAfterPartialTailMisaligned(r: int)
    requires InSignedRange(r, POSITION_BYTES) && r != 1
    ensures ParseIndex(EncodeEntry((0, 0)) + EncodeInt(1, ID_BYTES)) == [(0, 0)]
    ensures ParseIndex(EncodeEntry((0, 0)) + EncodeInt(1, ID_BYTES) + EncodeEntry((1, r))) == [(0, 0), (1, 1)]
    ensures ParseIndex(EncodeEntry((0, 0)) + EncodeInt(1, ID_BYTES) + EncodeEntry((1, r)))
         != ParseIndex(EncodeEntry((0, 0)) + EncodeInt(1, ID_BYTES)) + [(1, r)]
  {
    var tail := EncodeInt(1, ID_BYTES);
    ParseEntry((0, 0), tail);
    assert ParseIndex(tail) == [];
    var rest := EncodeInt(r, POSITION_BYTES);
    assert EncodeEntry((0, 0)) + tail + EncodeEntry((1, r))
        == EncodeEntry((0, 0)) + (EncodeEntry((1, 1)) + rest);
    ParseEntry((0, 0), EncodeEntry((1, 1)) + rest);
    ParseEntry((1, 1), rest);
    assert ParseIndex(rest) == [];
    assert ([(0, 0)] + [(1, r)])[1] == (1, r) != (1, 1);
  }

  /** The whole pairs at the front of an index file: what `loadHeader` read. */
  function CompletePairs(f: seq<Byte>): (g: seq<Byte>)
    ensures |g| % ENTRY_SIZE == 0 && g <= f && |f| - |g| < ENTRY_SIZE
    ensures ParseIndex(g) == ParseIndex(f)
  {
    var g := f[..|f| - |f| % ENTRY_SIZE];
    assert f == g + f[|g|..];
    ParseDropsPartialTail(g, f[|g|..]);
    g
  }

  /**
   * Appending a new pair after the complete pairs, dropping any partial
   * tail, makes the file reload as the index in memory plus the new entry.
   */
  lemma AppendAfterCompletePairs(f: seq<Byte>, e: Entry)
    requires EntryInRange(e)
    ensures ParseIndex(CompletePairs(f) + EncodeEntry(e)) == ParseIndex(f) + [e]
  {
    ParseAppendEntry(CompletePairs(f), e);
  }

  /** Entry k carries _id k: ids are 0, 1, 2, ... with no gap. */
  predicate Gapless(h: seq<Entry>) {
    forall k :: 0 <= k < |h| ==> h[k].0 == k
  }

  /** The ordering of `std::pair<long long, long long>`: lexicographic. */
  predicate PairLess(a: Entry, b: Entry) {
    a.0 < b.0 || (a.0 == b.0 && a.1 < b.1)
  }

  /**
   * What `std::lower_bound` demands of its range: every element below the
   * key comes before every element that is not.
   */
  predicate PartitionedBy(h: seq<Entry>, key: Entry) {
    forall i, j :: 0 <= i < j < |h| && PairLess(h[j], key) ==> PairLess(h[i], key)
  }

  /** Binary search for the first element of h[lo..hi] that is not below key. */
  function LowerBoundIn(h: seq<Entry>, key: Entry, lo: nat, hi: nat): (idx: nat)
    requires lo <= hi <= |h| && PartitionedBy(h, key)
    requires forall k :: 0 <= k < lo ==> PairLess(h[k], key)
    requires forall k :: hi <= k < |h| ==> !PairLess(h[k], key)
    ensures lo <= idx <= hi
    ensures forall k :: 0 <= k < idx ==> PairLess(h[k], key)
    ensures forall k :: idx <= k < |h| ==> !PairLess(h[k], key)
    decreases hi - lo
  {
    if lo == hi then lo
    else
      var mid := lo + (hi - lo) / 2;
      if PairLess(h[mid], key) then LowerBoundIn(h, key, mid + 1, hi)
      else LowerBoundIn(h, key, lo, mid)
  }

  /** `std::lower_bound(h.begin(), h.end(), key)` as an index into h. */
  function LowerBound(h: seq<Entry>, key: Entry): (idx: nat)
    requires PartitionedBy(h, key)
    ensures idx <= |h|
    ensures forall k :: 0 <= k < idx ==> PairLess(h[k], key)
    ensures forall k :: idx <= k < |h| ==> !PairLess(h[k], key)
  {
    LowerBoundIn(h, key, 0, |h|)
  }

  /** A gapless index is ordered for any search key. */
  lemma GaplessPartitioned(h: seq<Entry>, key: Entry)
    requires Gapless(h)
    ensures PartitionedBy(h, key)
  {
  }

  /** What `getRowById` finds in the index, as written. */
  datatype Probe =
    | Hit(position: int)  // an entry with the requested _id, at this registry_position
    | Miss                // the entry found carries another _id: an empty row
    | Thrown              // `header->at(idx)` with idx outside the index throws

  /**
   * The search of `getRowById(_id)` as written: lower_bound for the pair
   * (_id, LLONG_MIN), its distance narrowed to an `int idx`, then
   * `header->at(idx)` even when idx is past the end. A negative idx becomes
   * a `size_t` beyond any vector's size, so `at` throws for it too.
   */
  function ProbeById(h: seq<Entry>, id: int): Probe
    requires PartitionedBy(h, (id, INT64_MIN))
  {
    var idx := Int32Of(LowerBound(h, (id, INT64_MIN)));
    if idx < 0 || idx >= |h| then Thrown
    else if h[idx].0 == id then Hit(h[idx].1)
    else Miss
  }

  /**
   * Over a gapless index with in-range positions, the search as written
   * finds every stored id that fits an `int`, answers Miss for a negative id
   * on a non-empty index, and throws for an id at or past the row count of
   * an index shorter than 2^32 entries and for any id on an empty index. An
   * id of 2^31 or more is never found: idx cannot reach it.
   */
  lemma ProbeByIdGapless(h: seq<Entry>, id: int)
    requires Gapless(h)
    requires forall k :: 0 <= k < |h| ==> INT64_MIN <= h[k].1
    ensures PartitionedBy(h, (id, INT64_MIN))
    ensures LowerBound(h, (id, INT64_MIN)) == if id < 0 then 0 else if id < |h| then id else |h|
    ensures 0 <= id < |h| && id < 0x8000_0000 ==> ProbeById(h, id) == Hit(h[id].1)
    ensures id < 0 && |h| > 0 ==> ProbeById(h, id) == Miss
    ensures (id >= |h| || |h| == 0) && |h| < 0x1_0000_0000 ==> ProbeById(h, id) == Thrown
    ensures id >= 0x8000_0000 ==> !ProbeById(h, id).Hit?
  {
    GaplessPartitioned(h, (id, INT64_MIN));
    var key := (id, INT64_MIN);
    var idx := LowerBound(h, key);
    assert forall k :: 0 <= k < |h| ==> (PairLess(h[k], key) <==> k < id);
    assert idx < |h| ==> !PairLess(h[idx], key);
    assert 0 <= id < |h| ==> !PairLess(h[id], key);
    assert 0 < |h| ==> (PairLess(h[0], key) <==> 0 < id);
  }

  /**
   * On a gapless index of more than 2^32 entries, the narrowed idx makes
   * the search as written throw for _id 2^31 and miss _id 2^32, both stored.
   */
  lemma WideIndexProbe(h: seq<Entry>)
    requires Gapless(h) && |h| > 0x1_0000_0000
    requires forall k :: 0 <= k < |h| ==> INT64_MIN <= h[k].1
    ensures PartitionedBy(h, (0x8000_0000, INT64_MIN)) && PartitionedBy(h, (0x1_0000_0000, INT64_MIN))
    ensures h[0x8000_0000].0 == 0x8000_0000 && ProbeById(h, 0x8000_0000) == Thrown
    ensures h[0x1_0000_0000].0 == 0x1_0000_0000 && ProbeById(h, 0x1_0000_0000) == Miss
  {
    ProbeByIdGapless(h, 0x8000_0000);
    ProbeByIdGapless(h, 0x1_0000_0000);
    assert Int32Of(0x1_0000_0000) == 0;
  }

  /**
   * On an index shorter than 2^31 entries, the id one past the last entry is
   * the first that makes the search throw.
   */
  lemma ProbePastEndThrows(h: seq<Entry>)
    requires Gapless(h)
    requires forall k :: 0 <= k < |h| ==> INT64_MIN <= h[k].1
    ensures PartitionedBy(h, (|h|, INT64_MIN))
    ensures |h| < 0x1_0000_0000 ==> ProbeById(h, |h|) == Thrown
    ensures |h| < 0x8000_0000 ==> forall id :: 0 <= id < |h| ==> ProbeById(h, id) == Hit(h[id].1)
  {
    ProbeByIdGapless(h, |h|);
    forall id | 0 <= id < |h| && id < 0x8000_0000 ensures ProbeById(h, id) == Hit(h[id].1) {
      ProbeByIdGapless(h, id);
    }
  }

  /**
   * The search as evidently intended: the same lower_bound, reporting
   * "not found" when it runs off the end of the index.
   */
  function FindById(h: seq<Entry>, id: int): Option<int>
    requires PartitionedBy(h, (id, INT64_MIN))
  {
    var idx := LowerBound(h, (id, INT64_MIN));
    if idx < |h| && h[idx].0 == id then Some(h[idx].1) else None
  }

  /** Over a gapless index, FindById finds exactly the ids 0 .. |h|-1. */
  lemma FindByIdGapless(h: seq<Entry>, id: int)
    requires Gapless(h)
    requires forall k :: 0 <= k < |h| ==> INT64_MIN <= h[k].1
    ensures PartitionedBy(h, (id, INT64_MIN))
    ensures FindById(h, id) == if 0 <= id < |h| then Some(h[id].1) else None
  {
    ProbeByIdGapless(h, id);
  }
}
