// The in-memory file cache: a deque of stanzas with at most cache-size
// entries, backed by the flash file system, plus the periodic file-size
// limit check.

module CacheServices {
  import opened Bytes
  import opened StanzaPools
  import opened Lists

  datatype Option<T> = None | Some(value: T)

  /** The flash file system: file contents by path. */
  type Flash = map<string, seq<byte>>

  /** A file-limit entry: a path and the largest size the file may have. */
  datatype FlcStanza = FlcStanza(maxSize: nat, path: string)

  /** An element of limit_checks in the configuration: each field may be missing. */
  datatype LimitItem = LimitItem(path: Option<string>, maxSize: Option<nat>)

  const U32: nat := 0x1_0000_0000

  // ---------------------------------------------------------------------------
  // The deque, as sequences of stanzas

  /** No two stanzas of the deque cache the same path. */
  ghost predicate UniquePaths(cs: seq<CachedStanza>)
    reads set c | c in cs
  {
    forall i, j :: 0 <= i < j < |cs| ==> cs[i].path != cs[j].path
  }

  /** At most one stanza of the deque caches p. */
  ghost predicate AtMostOne(cs: seq<CachedStanza>, p: string)
    reads set c | c in cs
  {
    forall i, j :: 0 <= i < j < |cs| && cs[i].path == p ==> cs[j].path != p
  }

  /**
   * ReplaceCachedFile's deduplication loop from index i: a stanza with the
   * path is erased at its index, and the index then still advances, so the
   * stanza that moved into the erased slot is not examined.
   */
  function Dedup(cs: seq<CachedStanza>, p: string, i: nat): (r: seq<CachedStanza>)
    reads set c | c in cs
    ensures forall c :: c in r ==> c in cs
    decreases |cs| - i
  {
    if i >= |cs| then cs
    else if cs[i].path == p then Dedup(cs[..i] + cs[i + 1..], p, i + 1)
    else Dedup(cs, p, i + 1)
  }

  /** The stanzas without the one at index k. */
  function EraseAt<T>(cs: seq<T>, k: nat): (r: seq<T>)
    requires k < |cs|
    ensures |r| == |cs| - 1
    ensures forall i :: 0 <= i < k ==> r[i] == cs[i]
    ensures forall i :: k <= i < |r| ==> r[i] == cs[i + 1]
  {
    cs[..k] + cs[k + 1..]
  }

  /** The index of the first stanza caching p, or |cs|. */
  function FirstWithPath(cs: seq<CachedStanza>, p: string): (k: nat)
    reads set c | c in cs
    ensures k <= |cs|
    ensures forall i :: 0 <= i < k ==> cs[i].path != p
    ensures k < |cs| ==> cs[k].path == p
  {
    if cs == [] then 0
    else if cs[0].path == p then 0
    else 1 + FirstWithPath(cs[1..], p)
  }

  /** A stanza the cache may drop: saved, and held by nobody else. */
  predicate Recyclable(c: CachedStanza)
    reads c
  {
    c.saved && !c.inUse
  }

  /** The index of the first recyclable stanza, or |cs|. */
  function FirstRecyclable(cs: seq<CachedStanza>): (k: nat)
    reads set c | c in cs
    ensures k <= |cs|
    ensures forall i :: 0 <= i < k ==> !Recyclable(cs[i])
    ensures k < |cs| ==> Recyclable(cs[k])
  {
    if cs == [] then 0
    else if Recyclable(cs[0]) then 0
    else 1 + FirstRecyclable(cs[1..])
  }

  /** The deque after RemoveOutOfDataStanza: below capacity nothing, else without the first recyclable stanza. */
  function Trimmed(cs: seq<CachedStanza>, cacheSize: nat): seq<CachedStanza>
    reads set c | c in cs
  {
    if |cs| < cacheSize || FirstRecyclable(cs) == |cs| then cs
    else EraseAt(cs, FirstRecyclable(cs))
  }

  /** The deque after RemoveFile: the first stanza with the path is erased only if it is recyclable. */
  function WithoutFile(cs: seq<CachedStanza>, p: string): seq<CachedStanza>
    reads set c | c in cs
  {
    var k := FirstWithPath(cs, p);
    if k < |cs| && Recyclable(cs[k]) then EraseAt(cs, k) else cs
  }

  /**
   * What dropping c from the deque hands back to the pool: c itself when no
   * other owner (a caller, a posted message, one of holders) still shares
   * it, so that the shared_ptr deleter recycles it; otherwise nothing.
   */
  function Release(c: CachedStanza, holders: seq<CachedStanza>): seq<CachedStanza>
    reads c
  {
    if c.inUse || c in holders then [] else [c]
  }

  /** The stanza RemoveOutOfDataStanza hands back to the pool, if any. */
  function TrimReleased(cs: seq<CachedStanza>, cacheSize: nat, holders: seq<CachedStanza>): seq<CachedStanza>
    reads set c | c in cs
  {
    if |cs| < cacheSize || FirstRecyclable(cs) == |cs| then [] else Release(cs[FirstRecyclable(cs)], holders)
  }

  /** The stanza RemoveFile hands back to the pool, if any. */
  function FileReleased(cs: seq<CachedStanza>, p: string, holders: seq<CachedStanza>): seq<CachedStanza>
    reads set c | c in cs
  {
    var k := FirstWithPath(cs, p);
    if k < |cs| && Recyclable(cs[k]) then Release(cs[k], holders) else []
  }

  /**
   * The stanza ReplaceCachedFile's deduplication hands back to the pool:
   * with unique paths the loop erases at most the first stanza caching p.
   */
  function DedupReleased(cs: seq<CachedStanza>, p: string, holders: seq<CachedStanza>): seq<CachedStanza>
    reads set c | c in cs
  {
    var k := FirstWithPath(cs, p);
    if k < |cs| then Release(cs[k], holders) else []
  }

  /** AddFile's threshold test cached_stanzas_.size() > cache_size_ - 1, with the size_t wrap of 0 - 1. */
  predicate AboveThreshold(count: nat, cacheSize: nat)
  {
    cacheSize > 0 && count > cacheSize - 1
  }

  // ---------------------------------------------------------------------------
  // The file-limit configuration and its rotation

  /** The entries InitFileLimitCheck keeps: items with both fields, a positive limit halved on 128M flash. */
  function FlcEntries(items: seq<LimitItem>, flash128: bool): seq<FlcStanza>
  {
    if items == [] then [] else ItemEntry(items[0], flash128) + FlcEntries(items[1..], flash128)
  }

  /** The entry one item contributes: none when a field is missing. */
  function ItemEntry(it: LimitItem, flash128: bool): seq<FlcStanza>
  {
    if it.path.None? || it.maxSize.None? then []
    else [FlcStanza(if flash128 && it.maxSize.value > 0 then it.maxSize.value / 2 else it.maxSize.value,
                    it.path.value)]
  }

  /** The entry CheckFileLimit examines for a given index: the index itself, or 0 once it has run past the end. */
  function CheckedIndex(index: nat, n: nat): nat
  {
    if index >= n then 0 else index
  }

  /** The index after a CheckFileLimit call. */
  function NextIndex(index: nat, n: nat): nat
  {
    CheckedIndex(index, n) + 1
  }

  /** The index after m calls starting from index. */
  function IndexAfter(index: nat, n: nat, m: nat): nat
    decreases m
  {
    if m == 0 then index else IndexAfter(NextIndex(index, n), n, m - 1)
  }

  /** The file size CheckFileLimit compares, stored in a uint32; a file stat cannot see counts as size 0. */
  function StatSize(flash: Flash, p: string): nat
  {
    if p in flash then |flash[p]| % U32 else 0
  }

  /** The file system after checking one entry: the file is removed iff its size exceeds the limit. */
  function Checked(flash: Flash, e: FlcStanza): Flash
  {
    if e.maxSize < StatSize(flash, e.path) then flash - {e.path} else flash
  }

  // ---------------------------------------------------------------------------
  // The service

  class CachedService {
    /** cache_size_: the number of stanzas the cache keeps. */
    const cacheSize: nat
    /** The process-wide stanza pool. */
    const pool: CachedStanzaPool
    /** cached_stanzas_, oldest first. */
    var cached: seq<CachedStanza>
    /** Stanzas posted to the service's own thread to be written to flash. */
    var posted: seq<CachedStanza>
    /** flc_stanzas_: the file-limit entries. */
    var flc: seq<FlcStanza>
    /** current_stanzas_index_. */
    var index: nat
    /** The flash file system. */
    var flash: Flash

    /** Stocks the pool with cacheSize fresh stanzas; folder is what the flash already holds. */
    constructor(cacheSize: nat, pool: CachedStanzaPool, folder: Flash)
      requires pool.Valid()
      modifies pool
      ensures this.cacheSize == cacheSize && this.pool == pool
      ensures cached == [] && posted == [] && flc == [] && index == 0 && flash == folder
      ensures |pool.stanzas| == |old(pool.stanzas)| + cacheSize && pool.Valid()
    {
      this.cacheSize := cacheSize;
      this.pool := pool;
      cached := [];
      posted := [];
      flc := [];
      index := 0;
      flash := folder;
      new;
      pool.SetDefaultCachedSize(cacheSize);
    }

    /** The pool's stanzas are free and none of them is in the deque. */
    ghost predicate Valid()
      reads this, pool, set s | s in pool.stanzas, set c | c in cached
    {
      pool.Valid() && UniquePaths(cached) && forall c :: c in cached ==> c !in pool.stanzas
    }

    /** The pool once RemoveOutOfDataStanza has handed back what it drops. */
    ghost function PoolAfterTrim(): seq<CachedStanza>
      reads this, pool, set c | c in cached
    {
      pool.stanzas + TrimReleased(cached, cacheSize, posted)
    }

    /**
     * Erases every stanza caching stanza's path, as the index loop does, and
     * appends stanza; an erased stanza nobody else holds goes back to the pool.
     */
    method ReplaceCachedFile(stanza: CachedStanza)
      requires Valid() && stanza !in pool.stanzas
      modifies this, pool, DedupReleased(cached, stanza.path, posted + [stanza])
      ensures cached == old(Dedup(cached, stanza.path, 0)) + [stanza]
      ensures pool.stanzas == old(pool.stanzas + DedupReleased(cached, stanza.path, posted + [stanza]))
      ensures posted == old(posted) && flc == old(flc) && index == old(index) && flash == old(flash)
      ensures Valid()
    {
      var k := FindPath(cached, stanza.path);
      var kept := DedupLoop(cached, stanza.path);
      ReplaceKeepsUnique(cached, stanza);
      DedupAccounts(cached, stanza.path, posted + [stanza]);
      var before := cached;
      cached := kept + [stanza];
      if k < |before| && before[k] != stanza {
        ReleaseDropped(before[k], posted + [stanza]);
      }
    }

    /**
     * A stanza has just left the deque: unless holders or another owner still
     * share it, its last owner lets go and the deleter recycles it.
     */
    method ReleaseDropped(c: CachedStanza, holders: seq<CachedStanza>)
      requires Valid() && c !in cached && c !in pool.stanzas
      modifies pool, set x | x in Release(c, holders)
      ensures pool.stanzas == old(pool.stanzas) + old(Release(c, holders))
      ensures Valid()
    {
      if !c.inUse && c !in holders {
        assert Release(c, holders) == [c];
        pool.RecyleStanza(c);
      }
    }

    /** Puts stanza into the cache, then either posts it for writing or marks it saved. */
    method AddFile(stanza: CachedStanza, isCached: bool) returns (ok: bool)
      requires Valid() && stanza !in pool.stanzas && stanza !in cached && !stanza.saved
      modifies this, stanza, pool, DedupReleased(cached, stanza.path, posted + [stanza])
      ensures cached == old(Dedup(cached, stanza.path, 0)) + [stanza]
      ensures pool.stanzas == old(pool.stanzas + DedupReleased(cached, stanza.path, posted + [stanza]))
      ensures isCached && !AboveThreshold(|cached|, cacheSize) ==>
        posted == old(posted) + [stanza] && !stanza.saved
      ensures !(isCached && !AboveThreshold(|cached|, cacheSize)) ==>
        posted == old(posted) && stanza.saved
      ensures stanza.path == old(stanza.path) && stanza.data == old(stanza.data) && stanza.inUse == old(stanza.inUse)
      ensures flc == old(flc) && index == old(index) && flash == old(flash)
      ensures ok && Valid()
    {
      ReplaceCachedFile(stanza);
      if isCached {
        if AboveThreshold(|cached|, cacheSize) {
          stanza.SaveConfimation();
          return true;
        }
        posted := posted + [stanza];
      } else {
        stanza.SaveConfimation();
      }
      return true;
    }

    /**
     * Once the cache holds cacheSize stanzas or more, drops the first saved,
     * unused stanza; nobody else holds it, so it goes back to the pool.
     */
    method RemoveOutOfDataStanza()
      requires Valid()
      modifies this, pool, TrimReleased(cached, cacheSize, posted)
      ensures cached == old(Trimmed(cached, cacheSize))
      ensures pool.stanzas == old(PoolAfterTrim())
      ensures posted == old(posted) && flc == old(flc) && index == old(index) && flash == old(flash)
      ensures Valid()
    {
      if |cached| < cacheSize {
        return;
      }
      var k := FindRecyclable(cached);
      if k < |cached| {
        var c := cached[k];
        EraseKeepsUnique(cached, k);
        EraseDistinct(cached, k);
        cached := EraseAt(cached, k);
        ReleaseDropped(c, posted);
      }
    }

    /**
     * Deletes the file, and drops its stanza when that is saved and unused,
     * handing it back to the pool; always succeeds.
     */
    method RemoveFile(p: string) returns (ok: bool)
      requires Valid()
      modifies this, pool, FileReleased(cached, p, posted)
      ensures flash == old(flash) - {p}
      ensures cached == old(WithoutFile(cached, p))
      ensures pool.stanzas == old(pool.stanzas + FileReleased(cached, p, posted))
      ensures posted == old(posted) && flc == old(flc) && index == old(index)
      ensures ok && Valid()
    {
      var k := FindPath(cached, p);
      if k < |cached| && cached[k].saved && !cached[k].inUse {
        var c := cached[k];
        assert WithoutFile(cached, p) == EraseAt(cached, k);
        assert FileReleased(cached, p, posted) == Release(c, posted);
        EraseKeepsUnique(cached, k);
        EraseDistinct(cached, k);
        cached := EraseAt(cached, k);
        ReleaseDropped(c, posted);
      }
      flash := flash - {p};
      return true;
    }

    /**
     * Caches data under p in a stanza taken from the pool once the trim has
     * handed back what it drops; fails when the pool is still empty.
     */
    method SaveFile(p: string, data: seq<byte>) returns (ok: bool, stanza: CachedStanza?)
      requires Valid()
      modifies this, pool, pool.stanzas, TrimReleased(cached, cacheSize, posted),
        DedupReleased(Trimmed(cached, cacheSize), p, posted)
      ensures ok <==> old(PoolAfterTrim()) != []
      ensures !ok ==> (stanza == null && cached == old(Trimmed(cached, cacheSize)) && pool.stanzas == [] &&
                       posted == old(posted))
      ensures ok ==> (stanza == old(PoolAfterTrim())[0] &&
                      pool.stanzas == old(PoolAfterTrim())[1..] + old(DedupReleased(Trimmed(cached, cacheSize), p, posted)))
      ensures ok ==> stanza.path == p && stanza.data == data && !stanza.inUse
      ensures ok ==> cached == old(Dedup(Trimmed(cached, cacheSize), p, 0)) + [stanza]
      ensures ok ==> if AboveThreshold(|cached|, cacheSize) then posted == old(posted) && stanza.saved
                     else posted == old(posted) + [stanza] && !stanza.saved
      ensures flc == old(flc) && index == old(index) && flash == old(flash) && Valid()
    {
      ghost var trimmed := Trimmed(cached, cacheSize);
      ghost var released := DedupReleased(trimmed, p, posted);
      ghost var dedup := Dedup(trimmed, p, 0);
      TrimAccounts(cached, cacheSize, posted);
      RemoveOutOfDataStanza();
      assert DedupReleased(cached, p, posted) == released && Dedup(cached, p, 0) == dedup;
      ok, stanza := SaveTaken(p, data);
    }

    /** SaveFile after the trim: takes the pool's front stanza, fills it and adds it, posting it for writing. */
    method SaveTaken(p: string, data: seq<byte>) returns (ok: bool, stanza: CachedStanza?)
      requires Valid()
      modifies this, pool, pool.stanzas, DedupReleased(cached, p, posted)
      ensures ok <==> old(pool.stanzas) != []
      ensures !ok ==> (stanza == null && cached == old(cached) && pool.stanzas == [] && posted == old(posted))
      ensures ok ==> (stanza == old(pool.stanzas)[0] &&
                      pool.stanzas == old(pool.stanzas)[1..] + old(DedupReleased(cached, p, posted)))
      ensures ok ==> stanza.path == p && stanza.data == data && !stanza.inUse
      ensures ok ==> cached == old(Dedup(cached, p, 0)) + [stanza]
      ensures ok ==> if AboveThreshold(|cached|, cacheSize) then posted == old(posted) && stanza.saved
                     else posted == old(posted) + [stanza] && !stanza.saved
      ensures flc == old(flc) && index == old(index) && flash == old(flash) && Valid()
    {
      ghost var released := DedupReleased(cached, p, posted);
      ghost var dedup := Dedup(cached, p, 0);
      stanza := pool.TakeStanza();
      if stanza == null {
        return false, null;
      }
      assert stanza !in cached;
      assert DedupReleased(cached, p, posted) == released && Dedup(cached, p, 0) == dedup;
      ok := FillAndAdd(stanza, p, data);
    }

    /** The taken stanza gets the path and data and is added, posted for writing. */
    method FillAndAdd(stanza: CachedStanza, p: string, data: seq<byte>) returns (ok: bool)
      requires Valid() && stanza !in pool.stanzas && stanza !in cached && !stanza.saved && !stanza.inUse
      modifies this, pool, stanza, DedupReleased(cached, p, posted)
      ensures pool.stanzas == old(pool.stanzas) + old(DedupReleased(cached, p, posted))
      ensures stanza.path == p && stanza.data == data && !stanza.inUse
      ensures cached == old(Dedup(cached, p, 0)) + [stanza]
      ensures if AboveThreshold(|cached|, cacheSize) then posted == old(posted) && stanza.saved
              else posted == old(posted) + [stanza] && !stanza.saved
      ensures ok && flc == old(flc) && index == old(index) && flash == old(flash) && Valid()
    {
      ghost var released := DedupReleased(cached, p, posted);
      ghost var dedup := Dedup(cached, p, 0);
      stanza.SetPath(p);
      assert Dedup(cached, p, 0) == dedup;
      assert DedupReleased(cached, p, posted) == released;
      stanza.SetData(data);
      assert Dedup(cached, p, 0) == dedup;
      assert DedupReleased(cached, p, posted) == released;
      HoldersIrrelevant(cached, p, posted, stanza);
      ok := AddFile(stanza, true);
    }

    /** A cached file's data; on a miss, the file read from flash into a pooled stanza, which the cache keeps. */
    method GetFile(p: string) returns (data: Option<seq<byte>>)
      requires Valid()
      modifies this, pool, pool.stanzas, TrimReleased(cached, cacheSize, posted)
      ensures old(FirstWithPath(cached, p)) < |old(cached)| ==>
        data == Some(old(cached[FirstWithPath(cached, p)].data)) && cached == old(cached) &&
        pool.stanzas == old(pool.stanzas)
      ensures old(FirstWithPath(cached, p)) == |old(cached)| ==>
        Loaded(data, old(Trimmed(cached, cacheSize)), old(PoolAfterTrim()), p)
      ensures posted == old(posted) && flc == old(flc) && index == old(index) && flash == old(flash)
      ensures Valid()
    {
      var k := FindPath(cached, p);
      if k < |cached| {
        return Some(cached[k].data);
      }
      data := ReadIntoCache(p);
    }

    /**
     * The outcome of a miss, given the deque and the pool after trimming: the
     * file's data exactly when a stanza was free and the file exists; the
     * stanza then joins the deque as saved, and otherwise it returns to the
     * back of the pool.
     */
    ghost predicate Loaded(data: Option<seq<byte>>, trimmed: seq<CachedStanza>, pool1: seq<CachedStanza>, p: string)
      reads this, pool, set c | c in cached
    {
      (data.Some? <==> pool1 != [] && p in flash) &&
      (data.None? ==> cached == trimmed && pool.stanzas == (if pool1 == [] then [] else pool1[1..] + [pool1[0]])) &&
      (data.Some? ==> data.value == flash[p] && pool.stanzas == pool1[1..] &&
                      cached == trimmed + [pool1[0]] &&
                      cached[|cached| - 1].saved && cached[|cached| - 1].path == p)
    }

    /**
     * GetFile's miss: trims the deque, takes a stanza, reads the file into it
     * and caches it as saved; when the file is missing the stanza's last
     * owner lets go and it is recycled.
     */
    method ReadIntoCache(p: string) returns (data: Option<seq<byte>>)
      requires Valid() && FirstWithPath(cached, p) == |cached|
      modifies this, pool, pool.stanzas, TrimReleased(cached, cacheSize, posted)
      ensures Loaded(data, old(Trimmed(cached, cacheSize)), old(PoolAfterTrim()), p)
      ensures posted == old(posted) && flc == old(flc) && index == old(index) && flash == old(flash)
      ensures Valid()
    {
      MissStaysMiss(cached, cacheSize, p);
      RemoveOutOfDataStanza();
      data := LoadTaken(p);
    }

    /** ReadIntoCache after the trim: a pooled stanza receives the file, or goes back to the pool. */
    method LoadTaken(p: string) returns (data: Option<seq<byte>>)
      requires Valid() && FirstWithPath(cached, p) == |cached|
      modifies this, pool, pool.stanzas
      ensures Loaded(data, old(cached), old(pool.stanzas), p)
      ensures posted == old(posted) && flc == old(flc) && index == old(index) && flash == old(flash)
      ensures Valid()
    {
      var stanza := pool.TakeStanza();
      if stanza == null {
        return None;
      }
      assert stanza !in cached;
      stanza.SetPath(p);
      if p !in flash {
        pool.RecyleStanza(stanza);
        return None;
      }
      data := CacheRead(stanza, p);
    }

    /** The file exists: it is read into the taken stanza, which joins the deque as saved. */
    method CacheRead(stanza: CachedStanza, p: string) returns (data: Option<seq<byte>>)
      requires Valid() && stanza !in pool.stanzas && stanza !in cached
      requires stanza.path == p && stanza.data == [] && !stanza.saved && p in flash
      requires FirstWithPath(cached, p) == |cached|
      modifies this, pool, stanza
      ensures posted == old(posted) && flc == old(flc) && index == old(index) && flash == old(flash)
      ensures data == Some(flash[p])
      ensures cached == old(cached) + [stanza]
      ensures pool.stanzas == old(pool.stanzas)
      ensures stanza.saved && stanza.path == p && stanza.data == flash[p] && stanza.inUse == old(stanza.inUse)
      ensures Valid()
    {
      assert stanza.data + flash[p] == flash[p];
      stanza.SetData(stanza.data + flash[p]);
      assert FirstWithPath(cached, p) == |cached|;
      DedupNoMatch(cached, p, 0);
      assert DedupReleased(cached, p, posted + [stanza]) == [];
      var ok := AddFile(stanza, false);
      return Some(stanza.data);
    }

    /** Checks the next file-limit entry, wrapping the index to 0 once it has run past the end. */
    method CheckFileLimit()
      requires |flc| > 0
      modifies this
      ensures flc == old(flc) && cached == old(cached) && posted == old(posted)
      ensures index == NextIndex(old(index), |flc|)
      ensures flash == Checked(old(flash), flc[CheckedIndex(old(index), |flc|)])
    {
      if index >= |flc| {
        index := 0;
      }
      var stanza := flc[index];
      index := index + 1;
      var fileSize := 0;
      if stanza.path in flash {
        fileSize := |flash[stanza.path]| % U32;
      }
      if stanza.maxSize < fileSize {
        flash := flash - {stanza.path};
      }
    }

    /**
     * Loads the file-limit entries; configOpens says whether the configuration
     * file opens, parsed is its limit_checks array (None when the file is
     * empty or does not parse), flash128 whether the flash is 128M.
     */
    method InitFileLimitCheck(configOpens: bool, parsed: Option<seq<LimitItem>>, flash128: bool) returns (ok: bool)
      modifies this
      ensures flc == old(flc) + (if configOpens && parsed.Some? then FlcEntries(parsed.value, flash128) else [])
      ensures ok <==> configOpens && |flc| > 0
      ensures cached == old(cached) && posted == old(posted) && index == old(index) && flash == old(flash)
    {
      if !configOpens {
        return false;
      }
      if parsed.Some? {
        var entries := LimitEntries(parsed.value, flash128);
        flc := flc + entries;
      }
      return |flc| > 0;
    }
  }

  // ---------------------------------------------------------------------------
  // The loops

  /** ReplaceCachedFile's index loop over the deque. */
  method DedupLoop(cs: seq<CachedStanza>, p: string) returns (r: seq<CachedStanza>)
    ensures r == Dedup(cs, p, 0)
  {
    r := cs;
    var i := 0;
    while i < |r|
      invariant Dedup(cs, p, 0) == Dedup(r, p, i)
      decreases |r| - i
    {
      if r[i].path == p {
        r := EraseAt(r, i);
      }
      i := i + 1;
    }
  }

  /** The scan for the first saved, unused stanza. */
  method FindRecyclable(cs: seq<CachedStanza>) returns (k: nat)
    ensures k == FirstRecyclable(cs)
  {
    k := 0;
    while k < |cs|
      invariant k <= |cs| && forall i :: 0 <= i < k ==> !Recyclable(cs[i])
      decreases |cs| - k
    {
      if cs[k].saved && !cs[k].inUse {
        break;
      }
      k := k + 1;
    }
    FirstRecyclableAt(cs, k);
  }

  /** The scan for the first stanza caching p. */
  method FindPath(cs: seq<CachedStanza>, p: string) returns (k: nat)
    ensures k == FirstWithPath(cs, p)
  {
    k := 0;
    while k < |cs|
      invariant k <= |cs| && forall i :: 0 <= i < k ==> cs[i].path != p
      decreases |cs| - k
    {
      if cs[k].path == p {
        break;
      }
      k := k + 1;
    }
    FirstWithPathAt(cs, p, k);
  }

  /** InitFileLimitCheck's loop over limit_checks. */
  method LimitEntries(items: seq<LimitItem>, flash128: bool) returns (es: seq<FlcStanza>)
    ensures es == FlcEntries(items, flash128)
  {
    es := [];
    var i := 0;
    while i < |items|
      invariant i <= |items|
      invariant FlcEntries(items, flash128) == es + FlcEntries(items[i..], flash128)
      decreases |items| - i
    {
      var it := items[i];
      FlcEntriesStep(items, i, flash128);
      if it.path.Some? && it.maxSize.Some? {
        var max := it.maxSize.value;
        if flash128 && max > 0 {
          max := max / 2;
        }
        assert ItemEntry(it, flash128) == [FlcStanza(max, it.path.value)];
        AppendAssoc(es, [FlcStanza(max, it.path.value)], FlcEntries(items[i + 1..], flash128));
        es := es + [FlcStanza(max, it.path.value)];
      } else {
        assert ItemEntry(it, flash128) == [];
        assert [] + FlcEntries(items[i + 1..], flash128) == FlcEntries(items[i + 1..], flash128);
      }
      i := i + 1;
    }
    assert es == es + FlcEntries(items[i..], flash128);
  }

  // ---------------------------------------------------------------------------
  // Properties

  /** Characterises FirstRecyclable by a stanza the scan reaches. */
  lemma FirstRecyclableAt(cs: seq<CachedStanza>, k: nat)
    requires k <= |cs| && forall i :: 0 <= i < k ==> !Recyclable(cs[i])
    requires k < |cs| ==> Recyclable(cs[k])
    ensures FirstRecyclable(cs) == k
  {
  }

  /** Characterises FirstWithPath by a stanza the scan reaches. */
  lemma FirstWithPathAt(cs: seq<CachedStanza>, p: string, k: nat)
    requires k <= |cs| && forall i :: 0 <= i < k ==> cs[i].path != p
    requires k < |cs| ==> cs[k].path == p
    ensures FirstWithPath(cs, p) == k
  {
  }

  lemma FlcEntriesStep(items: seq<LimitItem>, i: nat, flash128: bool)
    requires i < |items|
    ensures FlcEntries(items[i..], flash128) == ItemEntry(items[i], flash128) + FlcEntries(items[i + 1..], flash128)
  {
    assert items[i..][1..] == items[i + 1..];
  }

  /** Dedup changes nothing once no stanza from index i on caches p. */
  lemma {:induction false} DedupNoMatch(cs: seq<CachedStanza>, p: string, i: nat)
    requires forall k :: i <= k < |cs| ==> cs[k].path != p
    ensures Dedup(cs, p, i) == cs
    decreases |cs| - i
  {
    if i < |cs| {
      DedupNoMatch(cs, p, i + 1);
    }
  }

  /** Dedup erases the single stanza caching p at or after index i. */
  lemma {:induction false} DedupSingle(cs: seq<CachedStanza>, p: string, i: nat, k: nat)
    requires i <= k < |cs| && cs[k].path == p
    requires forall j :: i <= j < |cs| && j != k ==> cs[j].path != p
    ensures Dedup(cs, p, i) == EraseAt(cs, k)
    decreases |cs| - i
  {
    if i < k {
      DedupSingle(cs, p, i + 1, k);
    } else {
      var r := EraseAt(cs, k);
      forall j | k + 1 <= j < |r|
        ensures r[j].path != p
      {
        assert r[j] == cs[j + 1];
      }
      DedupNoMatch(r, p, k + 1);
    }
  }

  /**
   * With at most one stanza caching the path beforehand, ReplaceCachedFile
   * leaves exactly one, the new stanza, at the back, and drops no stanza of
   * another path.
   */
  lemma ReplaceLeavesOne(cs: seq<CachedStanza>, s: CachedStanza)
    requires AtMostOne(cs, s.path)
    ensures var r := Dedup(cs, s.path, 0) + [s];
      r[|r| - 1] == s && (forall i :: 0 <= i < |r| - 1 ==> r[i].path != s.path) &&
      forall c :: c in cs && c.path != s.path ==> c in r
  {
    var k := FirstWithPath(cs, s.path);
    if k < |cs| {
      DedupSingle(cs, s.path, 0, k);
      forall c | c in cs && c.path != s.path
        ensures c in EraseAt(cs, k)
      {
        var j :| 0 <= j < |cs| && cs[j] == c;
        if j < k {
          assert EraseAt(cs, k)[j] == c;
        } else if j > k {
          assert EraseAt(cs, k)[j - 1] == c;
        }
      }
    } else {
      DedupNoMatch(cs, s.path, 0);
    }
  }

  /** Erasing a stanza keeps the paths unique. */
  lemma EraseKeepsUnique(cs: seq<CachedStanza>, k: nat)
    requires k < |cs| && UniquePaths(cs)
    ensures UniquePaths(EraseAt(cs, k))
  {
    var r := EraseAt(cs, k);
    forall i, j | 0 <= i < j < |r|
      ensures r[i].path != r[j].path
    {
      var i' := if i < k then i else i + 1;
      var j' := if j < k then j else j + 1;
      assert r[i] == cs[i'] && r[j] == cs[j'];
    }
  }

  /** ReplaceCachedFile keeps the deque's paths unique. */
  lemma ReplaceKeepsUnique(cs: seq<CachedStanza>, s: CachedStanza)
    requires UniquePaths(cs)
    ensures UniquePaths(Dedup(cs, s.path, 0) + [s])
  {
    var k := FirstWithPath(cs, s.path);
    var kept := Dedup(cs, s.path, 0);
    if k < |cs| {
      DedupSingle(cs, s.path, 0, k);
      EraseKeepsUnique(cs, k);
    } else {
      DedupNoMatch(cs, s.path, 0);
    }
    ReplaceLeavesOne(cs, s);
  }

  /** Two adjacent stanzas with the path: the index loop erases the first and skips the second. */
  lemma DedupSkipsAdjacent(a: CachedStanza, b: CachedStanza)
    requires a.path == b.path
    ensures Dedup([a, b], a.path, 0) == [b]
  {
    assert [a, b][..0] + [a, b][1..] == [b];
  }

  /** Dedup never lengthens the deque. */
  lemma {:induction false} DedupShorter(cs: seq<CachedStanza>, p: string, i: nat)
    ensures |Dedup(cs, p, i)| <= |cs|
    decreases |cs| - i
  {
    if i < |cs| {
      if cs[i].path == p {
        DedupShorter(cs[..i] + cs[i + 1..], p, i + 1);
      } else {
        DedupShorter(cs, p, i + 1);
      }
    }
  }

  /**
   * While the deque holds a stanza that may be dropped, SaveFile keeps it
   * within cacheSize stanzas.
   */
  lemma SaveKeepsBound(cs: seq<CachedStanza>, cacheSize: nat, s: CachedStanza)
    requires |cs| <= cacheSize && FirstRecyclable(cs) < |cs|
    ensures |Dedup(Trimmed(cs, cacheSize), s.path, 0) + [s]| <= cacheSize
  {
    DedupShorter(Trimmed(cs, cacheSize), s.path, 0);
  }

  /** RemoveOutOfDataStanza drops at most one stanza, and only a recyclable one. */
  lemma TrimmedDropsRecyclable(cs: seq<CachedStanza>, cacheSize: nat)
    ensures |Trimmed(cs, cacheSize)| >= |cs| - 1
    ensures |cs| < cacheSize ==> Trimmed(cs, cacheSize) == cs
    ensures forall c :: c in cs ==> c in Trimmed(cs, cacheSize) || Recyclable(c)
  {
    var k := FirstRecyclable(cs);
    if |cs| >= cacheSize && k < |cs| {
      forall c | c in cs
        ensures c in EraseAt(cs, k) || Recyclable(c)
      {
        var j :| 0 <= j < |cs| && cs[j] == c;
        if j < k {
          assert EraseAt(cs, k)[j] == c;
        } else if j > k {
          assert EraseAt(cs, k)[j - 1] == c;
        }
      }
    }
  }

  /** The index after m + 1 calls is one more call after m. */
  lemma {:induction false} IndexAfterStep(index: nat, n: nat, m: nat)
    ensures IndexAfter(index, n, m + 1) == NextIndex(IndexAfter(index, n, m), n)
    decreases m
  {
    if m > 0 {
      IndexAfterStep(NextIndex(index, n), n, m - 1);
    }
  }

  /** a + b calls are a calls followed by b calls. */
  lemma {:induction false} IndexAfterCompose(index: nat, n: nat, a: nat, b: nat)
    ensures IndexAfter(index, n, a + b) == IndexAfter(IndexAfter(index, n, a), n, b)
    decreases a
  {
    if a > 0 {
      IndexAfterCompose(NextIndex(index, n), n, a - 1, b);
    }
  }

  /** From index 0, the first n CheckFileLimit calls check the entries 0, 1, ..., n - 1 in order. */
  lemma {:induction false} RotationFirstRound(n: nat, m: nat)
    requires m <= n
    ensures IndexAfter(0, n, m) == m
    ensures m < n ==> CheckedIndex(IndexAfter(0, n, m), n) == m
    decreases m
  {
    if m > 0 {
      RotationFirstRound(n, m - 1);
      IndexAfterStep(0, n, m - 1);
    }
  }

  /** After the first call the rotation repeats with period n, so every entry is checked once per n calls. */
  lemma RotationPeriodic(n: nat, m: nat)
    requires n > 0 && m > 0
    ensures IndexAfter(0, n, m + n) == IndexAfter(0, n, m)
  {
    IndexAfterCompose(0, n, n, m);
    RotationFirstRound(n, n);
    assert m + n == n + m;
  }

  /** The entries of a concatenation are the entries of each part. */
  lemma {:induction false} FlcEntriesAppend(a: seq<LimitItem>, b: seq<LimitItem>, flash128: bool)
    ensures FlcEntries(a + b, flash128) == FlcEntries(a, flash128) + FlcEntries(b, flash128)
  {
    if a != [] {
      assert (a + b)[0] == a[0] && (a + b)[1..] == a[1..] + b;
      FlcEntriesAppend(a[1..], b, flash128);
      assert FlcEntries(a + b, flash128) == ItemEntry(a[0], flash128) + FlcEntries(a[1..] + b, flash128);
    } else {
      assert a + b == b;
    }
  }

  /** Items with both fields map one to one onto entries, a positive limit halved on 128M flash. */
  lemma {:induction false} FlcEntriesComplete(items: seq<LimitItem>, flash128: bool)
    requires forall i :: 0 <= i < |items| ==> items[i].path.Some? && items[i].maxSize.Some?
    ensures |FlcEntries(items, flash128)| == |items|
    ensures forall i :: 0 <= i < |items| ==>
      FlcEntries(items, flash128)[i].path == items[i].path.value &&
      FlcEntries(items, flash128)[i].maxSize ==
        (if flash128 && items[i].maxSize.value > 0 then items[i].maxSize.value / 2 else items[i].maxSize.value)
  {
    if items != [] {
      FlcEntriesComplete(items[1..], flash128);
    }
  }

  /** An item missing a field contributes nothing. */
  lemma FlcEntriesSkipIncomplete(a: seq<LimitItem>, it: LimitItem, b: seq<LimitItem>, flash128: bool)
    requires it.path.None? || it.maxSize.None?
    ensures FlcEntries(a + [it] + b, flash128) == FlcEntries(a + b, flash128)
  {
    FlcEntriesAppend(a + [it], b, flash128);
    FlcEntriesAppend(a, [it], flash128);
    FlcEntriesAppend(a, b, flash128);
  }

  /** One check removes at most the entry's file, and removes it exactly when its uint32 size exceeds the limit. */
  lemma CheckedRemovesOnlyLarge(flash: Flash, e: FlcStanza)
    ensures Checked(flash, e).Keys <= flash.Keys
    ensures forall q :: q in flash && q != e.path ==> q in Checked(flash, e) && Checked(flash, e)[q] == flash[q]
    ensures e.path in flash ==> (e.path !in Checked(flash, e) <==> e.maxSize < |flash[e.path]| % U32)
  {
  }

  // ---------------------------------------------------------------------------
  // Where the dropped stanzas go

  /** In a deque with unique paths, the erased stanza leaves and every other one stays. */
  lemma EraseDistinct(cs: seq<CachedStanza>, k: nat)
    requires k < |cs| && UniquePaths(cs)
    ensures cs[k] !in EraseAt(cs, k)
    ensures forall c :: c in cs ==> c in EraseAt(cs, k) || c == cs[k]
    ensures forall c :: c in EraseAt(cs, k) ==> c in cs
  {
    var r := EraseAt(cs, k);
    forall j | 0 <= j < |r|
      ensures r[j] != cs[k]
    {
      var j' := if j < k then j else j + 1;
      assert r[j] == cs[j'];
      if j' < k {
        assert cs[j'].path != cs[k].path;
      } else {
        assert cs[k].path != cs[j'].path;
      }
    }
    forall c | c in cs
      ensures c in r || c == cs[k]
    {
      var j :| 0 <= j < |cs| && cs[j] == c;
      if j < k {
        assert r[j] == c;
      } else if j > k {
        assert r[j - 1] == c;
      }
    }
  }

  /**
   * Deduplication loses no stanza: each one of the old deque is kept, handed
   * back, or still held elsewhere; a stanza handed back has left the deque;
   * and with nothing held elsewhere the two counts add up to the old one.
   */
  lemma DedupAccounts(cs: seq<CachedStanza>, p: string, holders: seq<CachedStanza>)
    requires UniquePaths(cs)
    ensures FirstWithPath(cs, p) < |cs| ==> cs[FirstWithPath(cs, p)] !in Dedup(cs, p, 0)
    ensures forall c :: c in DedupReleased(cs, p, holders) ==> c in cs && c !in Dedup(cs, p, 0)
    ensures forall c :: c in cs ==>
      c in Dedup(cs, p, 0) || c in DedupReleased(cs, p, holders) || c.inUse || c in holders
    ensures (forall c :: c in cs ==> !c.inUse && c !in holders) ==>
      |Dedup(cs, p, 0)| + |DedupReleased(cs, p, holders)| == |cs|
  {
    var k := FirstWithPath(cs, p);
    if k < |cs| {
      forall j | k < j < |cs|
        ensures cs[j].path != p
      {
        assert cs[k].path != cs[j].path;
      }
      DedupSingle(cs, p, 0, k);
      EraseDistinct(cs, k);
    } else {
      DedupNoMatch(cs, p, 0);
    }
  }

  /**
   * Trimming loses no stanza: each one of the old deque is kept, handed
   * back, or posted; a stanza handed back has left the deque; and with
   * nothing posted the two counts add up to the old one.
   */
  lemma TrimAccounts(cs: seq<CachedStanza>, cacheSize: nat, holders: seq<CachedStanza>)
    requires UniquePaths(cs)
    ensures forall c :: c in TrimReleased(cs, cacheSize, holders) ==> c in cs && c !in Trimmed(cs, cacheSize)
    ensures forall c :: c in Trimmed(cs, cacheSize) ==> c in cs
    ensures forall c :: c in cs ==>
      c in Trimmed(cs, cacheSize) || c in TrimReleased(cs, cacheSize, holders) || c in holders
    ensures (forall c :: c in cs ==> c !in holders) ==>
      |Trimmed(cs, cacheSize)| + |TrimReleased(cs, cacheSize, holders)| == |cs|
  {
    var k := FirstRecyclable(cs);
    if |cs| >= cacheSize && k < |cs| {
      EraseDistinct(cs, k);
    }
  }

  /**
   * Once the deque is full and holds a recyclable stanza no posted message
   * shares, the trim hands exactly that stanza back, so the pool SaveFile
   * and GetFile take from is not empty.
   */
  lemma TrimRefillsPool(cs: seq<CachedStanza>, cacheSize: nat, holders: seq<CachedStanza>)
    requires |cs| >= cacheSize && FirstRecyclable(cs) < |cs| && cs[FirstRecyclable(cs)] !in holders
    ensures TrimReleased(cs, cacheSize, holders) == [cs[FirstRecyclable(cs)]]
  {
  }

  /**
   * RemoveFile loses no stanza: each one of the old deque is kept, handed
   * back, or posted; a stanza handed back has left the deque.
   */
  lemma FileAccounts(cs: seq<CachedStanza>, p: string, holders: seq<CachedStanza>)
    requires UniquePaths(cs)
    ensures forall c :: c in FileReleased(cs, p, holders) ==> c in cs && c !in WithoutFile(cs, p)
    ensures forall c :: c in WithoutFile(cs, p) ==> c in cs
    ensures forall c :: c in cs ==>
      c in WithoutFile(cs, p) || c in FileReleased(cs, p, holders) || c in holders
    ensures (forall c :: c in cs ==> c !in holders) ==>
      |WithoutFile(cs, p)| + |FileReleased(cs, p, holders)| == |cs|
  {
    var k := FirstWithPath(cs, p);
    if k < |cs| && Recyclable(cs[k]) {
      EraseDistinct(cs, k);
    }
  }

  /** A holder outside the deque does not change what deduplication hands back. */
  lemma HoldersIrrelevant(cs: seq<CachedStanza>, p: string, holders: seq<CachedStanza>, s: CachedStanza)
    requires s !in cs
    ensures DedupReleased(cs, p, holders + [s]) == DedupReleased(cs, p, holders)
  {
  }

  /** A path no stanza caches stays uncached after trimming, so deduplication then hands nothing back. */
  lemma MissStaysMiss(cs: seq<CachedStanza>, cacheSize: nat, p: string)
    requires UniquePaths(cs) && FirstWithPath(cs, p) == |cs|
    ensures FirstWithPath(Trimmed(cs, cacheSize), p) == |Trimmed(cs, cacheSize)|
    ensures forall holders :: DedupReleased(Trimmed(cs, cacheSize), p, holders) == []
  {
    TrimAccounts(cs, cacheSize, []);
    var t := Trimmed(cs, cacheSize);
    forall i | 0 <= i < |t|
      ensures t[i].path != p
    {
      assert t[i] in cs;
    }
    FirstWithPathAt(t, p, |t|);
  }
}
