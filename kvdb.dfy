// The key-value store's record cache: tiers of fixed-capacity records in
// front of one file per key.

module Kvdb {
  import opened Bytes
  import opened Lists

  const KVDB_KEY_MAXLEN: nat := 64
  const KVDB_CACHE_MAXNUM: nat := 4
  const KVDB_CACHE_EACH_MAXCNT: nat := 1000
  const KVDB_TMP_BUFFER_LEN: nat := 1024

  const KVDB_ERR_OK: int := 0
  const KVDB_ERR_OPEN_FILE: int := 1
  const KVDB_ERR_WRITE_FILE: int := 2
  const KVDB_ERR_INVALID_PARAM: int := 5

  datatype Option<T> = None | Some(value: T)

  /** A tier's definition as the caller gives it: record capacity and record count. */
  datatype KvdbCache = KvdbCache(size: int, counter: int)

  /** One cached record; the valid flag is the status word's valid bit. */
  datatype Record = Record(valid: bool, timeLast: int, key: string, value: seq<byte>)

  const FREE_RECORD: Record := Record(false, 0, "", [])

  /** A tier: its record capacity and its records in list order. */
  datatype Tier = Tier(size: int, records: seq<Record>)

  /** A record's place: tier, then position in the tier's list. */
  datatype Pos = Pos(tier: nat, index: nat)

  /** The folder: file name to contents. */
  type Files = map<string, seq<byte>>

  predicate ValidKey(key: string) { 0 < |key| <= KVDB_KEY_MAXLEN }

  function Min(a: int, b: int): int { if a < b then a else b }

  // ---------------------------------------------------------------------------
  // Positions

  predicate In(tiers: seq<Tier>, p: Pos)
  {
    p.tier < |tiers| && p.index < |tiers[p.tier].records|
  }

  function At(tiers: seq<Tier>, p: Pos): Record
    requires In(tiers, p)
  {
    tiers[p.tier].records[p.index]
  }

  /** Scan order: tier by tier, each tier's list front to back. */
  predicate Before(p: Pos, q: Pos)
  {
    p.tier < q.tier || (p.tier == q.tier && p.index < q.index)
  }

  predicate Holds(r: Record, key: string) { r.valid && r.key == key }

  /** The tiers with the record at p replaced by r. */
  function SetAt(tiers: seq<Tier>, p: Pos, r: Record): (t: seq<Tier>)
    requires In(tiers, p)
    ensures |t| == |tiers|
    ensures forall i :: 0 <= i < |t| ==> t[i].size == tiers[i].size && |t[i].records| == |tiers[i].records|
  {
    tiers[p.tier := Tier(tiers[p.tier].size, tiers[p.tier].records[p.index := r])]
  }

  lemma AtSetAt(tiers: seq<Tier>, p: Pos, r: Record, q: Pos)
    requires In(tiers, p)
    ensures In(SetAt(tiers, p, r), q) == In(tiers, q)
    ensures In(tiers, q) ==> At(SetAt(tiers, p, r), q) == if q == p then r else At(tiers, q)
  {
  }

  function Invalidate(tiers: seq<Tier>, p: Pos): seq<Tier>
    requires In(tiers, p)
  {
    SetAt(tiers, p, At(tiers, p).(valid := false))
  }

  function Store(tiers: seq<Tier>, p: Pos, key: string, value: seq<byte>, now: int): seq<Tier>
    requires In(tiers, p)
  {
    SetAt(tiers, p, Record(true, now, key, value))
  }

  function Touch(tiers: seq<Tier>, p: Pos, now: int): seq<Tier>
    requires In(tiers, p)
  {
    SetAt(tiers, p, At(tiers, p).(timeLast := now))
  }

  /**
   * The cache invariant: at most four tiers of at most 1000 records, every
   * valid record fits its tier, and no key is held by two valid records.
   */
  ghost predicate Valid(tiers: seq<Tier>)
  {
    |tiers| <= KVDB_CACHE_MAXNUM &&
    (forall i :: 0 <= i < |tiers| ==> |tiers[i].records| <= KVDB_CACHE_EACH_MAXCNT) &&
    (forall p :: In(tiers, p) && At(tiers, p).valid ==> |At(tiers, p).value| <= tiers[p.tier].size) &&
    (forall p, q :: (In(tiers, p) && In(tiers, q) && At(tiers, p).valid && At(tiers, q).valid &&
                     At(tiers, p).key == At(tiers, q).key) ==> p == q)
  }

  // ---------------------------------------------------------------------------
  // Construction

  function TierCount(cacheCnt: int): nat
  {
    if cacheCnt < 0 then 0 else if cacheCnt > KVDB_CACHE_MAXNUM then KVDB_CACHE_MAXNUM else cacheCnt
  }

  function RecordCount(counter: int): nat
  {
    if counter > KVDB_CACHE_EACH_MAXCNT then KVDB_CACHE_EACH_MAXCNT else if counter < 0 then 0 else counter
  }

  function InitialTier(c: KvdbCache): Tier
  {
    Tier(c.size, seq(RecordCount(c.counter), _ => FREE_RECORD))
  }

  /** Builds the first n tiers from their definitions, all records free. */
  method BuildTiers(cache: seq<KvdbCache>, n: nat) returns (tiers: seq<Tier>)
    requires n <= |cache|
    ensures |tiers| == n && forall i :: 0 <= i < n ==> tiers[i] == InitialTier(cache[i])
  {
    tiers := [];
    var i := 0;
    while i < n
      invariant 0 <= i <= n && |tiers| == i
      invariant forall k :: 0 <= k < i ==> tiers[k] == InitialTier(cache[k])
    {
      var records: seq<Record> := [];
      var j := 0;
      while j < RecordCount(cache[i].counter)
        invariant 0 <= j <= RecordCount(cache[i].counter) && records == seq(j, _ => FREE_RECORD)
      {
        records := records + [FREE_RECORD];
        j := j + 1;
      }
      tiers := tiers + [Tier(cache[i].size, records)];
      i := i + 1;
    }
  }

  /** A fresh cache holds at most four tiers of at most 1000 records, all free, and is valid. */
  lemma InitialCache(cache: seq<KvdbCache>, cacheCnt: int, tiers: seq<Tier>)
    requires TierCount(cacheCnt) <= |cache|
    requires |tiers| == TierCount(cacheCnt) && forall i :: 0 <= i < |tiers| ==> tiers[i] == InitialTier(cache[i])
    ensures |tiers| <= KVDB_CACHE_MAXNUM
    ensures forall i :: 0 <= i < |tiers| ==> |tiers[i].records| == RecordCount(cache[i].counter) <= KVDB_CACHE_EACH_MAXCNT
    ensures forall p :: In(tiers, p) ==> !At(tiers, p).valid
    ensures Valid(tiers)
  {
  }

  // ---------------------------------------------------------------------------
  // NodeFind

  function FindInTier(recs: seq<Record>, key: string, j: nat): Option<nat>
    decreases |recs| - j
  {
    if j >= |recs| then None
    else if Holds(recs[j], key) then Some(j)
    else FindInTier(recs, key, j + 1)
  }

  function FindFrom(tiers: seq<Tier>, key: string, i: nat): Option<Pos>
    decreases |tiers| - i
  {
    if i >= |tiers| then None
    else match FindInTier(tiers[i].records, key, 0)
      case Some(j) => Some(Pos(i, j))
      case None => FindFrom(tiers, key, i + 1)
  }

  /** The record NodeFind returns. */
  function Find(tiers: seq<Tier>, key: string): (r: Option<Pos>)
    ensures r.Some? ==> In(tiers, r.value) && Holds(At(tiers, r.value), key)
  {
    FindFromFacts(tiers, key, 0);
    FindFrom(tiers, key, 0)
  }

  lemma {:induction false} FindInTierFacts(recs: seq<Record>, key: string, j: nat)
    ensures match FindInTier(recs, key, j)
      case Some(k) => j <= k < |recs| && Holds(recs[k], key) && forall l :: j <= l < k ==> !Holds(recs[l], key)
      case None => forall l :: j <= l < |recs| ==> !Holds(recs[l], key)
    decreases |recs| - j
  {
    if j < |recs| && !Holds(recs[j], key) {
      FindInTierFacts(recs, key, j + 1);
    }
  }

  lemma {:induction false} FindFromFacts(tiers: seq<Tier>, key: string, i: nat)
    ensures match FindFrom(tiers, key, i)
      case Some(p) => In(tiers, p) && i <= p.tier && Holds(At(tiers, p), key) &&
        forall q :: In(tiers, q) && i <= q.tier && Before(q, p) ==> !Holds(At(tiers, q), key)
      case None => forall q :: In(tiers, q) && i <= q.tier ==> !Holds(At(tiers, q), key)
    decreases |tiers| - i
  {
    if i < |tiers| {
      FindInTierFacts(tiers[i].records, key, 0);
      if FindInTier(tiers[i].records, key, 0).None? {
        FindFromFacts(tiers, key, i + 1);
      }
    }
  }

  /** NodeFind returns the first valid record holding the key in scan order, and nothing exactly when none holds it. */
  lemma FindFirst(tiers: seq<Tier>, key: string)
    ensures Find(tiers, key).Some? ==>
      var p := Find(tiers, key).value;
      In(tiers, p) && Holds(At(tiers, p), key) &&
      forall q :: In(tiers, q) && Before(q, p) ==> !Holds(At(tiers, q), key)
    ensures Find(tiers, key).None? <==> forall q :: In(tiers, q) ==> !Holds(At(tiers, q), key)
  {
    FindFromFacts(tiers, key, 0);
  }

  /** In a valid cache the found record is the only one holding the key. */
  lemma FindUnique(tiers: seq<Tier>, key: string, q: Pos)
    requires Valid(tiers) && In(tiers, q) && Holds(At(tiers, q), key)
    ensures Find(tiers, key) == Some(q)
  {
    FindFirst(tiers, key);
  }

  method NodeFind(tiers: seq<Tier>, key: string) returns (found: Option<Pos>)
    requires forall i :: 0 <= i < |tiers| ==> |tiers[i].records| <= KVDB_CACHE_EACH_MAXCNT
    ensures found == Find(tiers, key)
  {
    var i := 0;
    while i < |tiers|
      invariant 0 <= i <= |tiers|
      invariant Find(tiers, key) == FindFrom(tiers, key, i)
      decreases |tiers| - i
    {
      var recs := tiers[i].records;
      var j := 0;
      while j < KVDB_CACHE_EACH_MAXCNT && j < |recs|
        invariant 0 <= j <= |recs|
        invariant FindInTier(recs, key, 0) == FindInTier(recs, key, j)
        decreases |recs| - j
      {
        if recs[j].valid && recs[j].key == key {
          return Some(Pos(i, j));
        }
        j := j + 1;
      }
      i := i + 1;
    }
    return None;
  }

  // ---------------------------------------------------------------------------
  // NodeOldest

  /** The state of the eviction scan: a free record found, or the oldest time and record so far. */
  datatype Scan = Free(at: Pos) | Best(time: int, best: Option<Pos>)

  function OldestInTier(recs: seq<Record>, i: nat, j: nat, time: int, best: Option<Pos>): Scan
    decreases |recs| - j
  {
    if j >= |recs| then Best(time, best)
    else if !recs[j].valid then Free(Pos(i, j))
    else if recs[j].timeLast < time then OldestInTier(recs, i, j + 1, recs[j].timeLast, Some(Pos(i, j)))
    else OldestInTier(recs, i, j + 1, time, best)
  }

  function OldestFrom(tiers: seq<Tier>, len: int, i: nat, time: int, best: Option<Pos>): Scan
    decreases |tiers| - i, 1
  {
    if i >= |tiers| then Best(time, best)
    else if tiers[i].size < len then OldestFrom(tiers, len, i + 1, time, best)
    else Continue(tiers, len, i, OldestInTier(tiers[i].records, i, 0, time, best))
  }

  /** The scan after tier i has been walked with result s. */
  function Continue(tiers: seq<Tier>, len: int, i: nat, s: Scan): Scan
    requires i < |tiers|
    decreases |tiers| - i, 0
  {
    match s
    case Free(p) => Free(p)
    case Best(t, b) => OldestFrom(tiers, len, i + 1, t, b)
  }

  /** The record NodeOldest returns for a value of len bytes at time now. */
  function Oldest(tiers: seq<Tier>, len: int, now: int): (r: Option<Pos>)
    ensures r.Some? ==> Eligible(tiers, len, r.value)
  {
    OldestFromFacts(tiers, len, 0, now, None);
    match OldestFrom(tiers, len, 0, now, None)
    case Free(p) => Some(p)
    case Best(_, b) => b
  }

  /** The records NodeOldest considers: those of tiers whose capacity is at least len. */
  predicate Eligible(tiers: seq<Tier>, len: int, q: Pos)
  {
    In(tiers, q) && tiers[q.tier].size >= len
  }

  /** q is at or after the scan point (i, j). */
  predicate From(i: nat, j: nat, q: Pos)
  {
    q.tier > i || (q.tier == i && q.index >= j)
  }

  /** What a scan from (i, j) with time and best yields, stated over the positions it visits. */
  ghost predicate ScanMeets(tiers: seq<Tier>, len: int, i: nat, j: nat, time: int, best: Option<Pos>, s: Scan)
  {
    match s
    case Free(p) =>
      Eligible(tiers, len, p) && From(i, j, p) && !At(tiers, p).valid &&
      forall q :: Eligible(tiers, len, q) && From(i, j, q) && Before(q, p) ==> At(tiers, q).valid
    case Best(t, b) =>
      (forall q :: Eligible(tiers, len, q) && From(i, j, q) ==> At(tiers, q).valid && At(tiers, q).timeLast >= t) &&
      ((t == time && b == best) ||
       (t < time && b.Some? && Eligible(tiers, len, b.value) && From(i, j, b.value) &&
        At(tiers, b.value).timeLast == t &&
        forall q :: Eligible(tiers, len, q) && From(i, j, q) && Before(q, b.value) ==> At(tiers, q).timeLast > t))
  }

  lemma {:induction false} OldestInTierFacts(tiers: seq<Tier>, len: int, i: nat, j: nat, time: int, best: Option<Pos>)
    requires i < |tiers| && tiers[i].size >= len
    ensures ScanTierMeets(tiers, len, i, j, time, best, OldestInTier(tiers[i].records, i, j, time, best))
    decreases |tiers[i].records| - j
  {
    var recs := tiers[i].records;
    if j < |recs| && recs[j].valid {
      var j1 := j + 1;
      if recs[j].timeLast < time {
        OldestInTierFacts(tiers, len, i, j1, recs[j].timeLast, Some(Pos(i, j)));
      } else {
        OldestInTierFacts(tiers, len, i, j1, time, best);
      }
    }
  }

  /** ScanMeets restricted to tier i: the positions of tier i from j on. */
  predicate ScanTierMeets(tiers: seq<Tier>, len: int, i: nat, j: nat, time: int, best: Option<Pos>, s: Scan)
    requires i < |tiers|
  {
    var recs := tiers[i].records;
    match s
    case Free(p) =>
      p.tier == i && j <= p.index < |recs| && !recs[p.index].valid &&
      forall l :: j <= l < p.index ==> recs[l].valid
    case Best(t, b) =>
      (forall l :: j <= l < |recs| ==> recs[l].valid && recs[l].timeLast >= t) &&
      ((t == time && b == best) ||
       (t < time && b.Some? && b.value.tier == i && j <= b.value.index < |recs| &&
        recs[b.value.index].timeLast == t &&
        forall l :: j <= l < b.value.index ==> recs[l].timeLast > t))
  }

  lemma {:induction false} OldestFromFacts(tiers: seq<Tier>, len: int, i: nat, time: int, best: Option<Pos>)
    ensures ScanMeets(tiers, len, i, 0, time, best, OldestFrom(tiers, len, i, time, best))
    decreases |tiers| - i
  {
    if i < |tiers| {
      if tiers[i].size < len {
        OldestFromFacts(tiers, len, i + 1, time, best);
        SkipTier(tiers, len, i, time, best, OldestFrom(tiers, len, i + 1, time, best));
      } else {
        var s := OldestInTier(tiers[i].records, i, 0, time, best);
        OldestInTierFacts(tiers, len, i, 0, time, best);
        if s.Best? {
          OldestFromFacts(tiers, len, i + 1, s.time, s.best);
          JoinTier(tiers, len, i, time, best, s, OldestFrom(tiers, len, i + 1, s.time, s.best));
        } else {
          FreeInTier(tiers, len, i, time, best, s);
        }
      }
    }
  }

  /** A tier too small for len contributes nothing to the scan. */
  lemma SkipTier(tiers: seq<Tier>, len: int, i: nat, time: int, best: Option<Pos>, s: Scan)
    requires i < |tiers| && tiers[i].size < len
    requires ScanMeets(tiers, len, i + 1, 0, time, best, s)
    ensures ScanMeets(tiers, len, i, 0, time, best, s)
  {
    assert forall q :: Eligible(tiers, len, q) && From(i, 0, q) ==> From(i + 1, 0, q);
  }

  /** A free record in tier i ends the scan there. */
  lemma FreeInTier(tiers: seq<Tier>, len: int, i: nat, time: int, best: Option<Pos>, s: Scan)
    requires i < |tiers| && tiers[i].size >= len && s.Free?
    requires ScanTierMeets(tiers, len, i, 0, time, best, s)
    ensures ScanMeets(tiers, len, i, 0, time, best, s)
  {
    forall q | Eligible(tiers, len, q) && From(i, 0, q) && Before(q, s.at)
      ensures At(tiers, q).valid
    {
      assert q.tier == i;
    }
  }

  /** The result of walking tier i, followed by the scan of the later tiers. */
  lemma JoinTier(tiers: seq<Tier>, len: int, i: nat, time: int, best: Option<Pos>, s: Scan, r: Scan)
    requires i < |tiers| && tiers[i].size >= len && s.Best?
    requires ScanTierMeets(tiers, len, i, 0, time, best, s)
    requires ScanMeets(tiers, len, i + 1, 0, s.time, s.best, r)
    ensures ScanMeets(tiers, len, i, 0, time, best, r)
  {
    if r.Free? {
      forall q | Eligible(tiers, len, q) && From(i, 0, q) && Before(q, r.at)
        ensures At(tiers, q).valid
      {
        if q.tier == i {
          assert tiers[i].records[q.index] == At(tiers, q);
        }
      }
    } else {
      forall q | Eligible(tiers, len, q) && From(i, 0, q)
        ensures At(tiers, q).valid && At(tiers, q).timeLast >= r.time
      {
        if q.tier == i {
          assert tiers[i].records[q.index] == At(tiers, q);
        }
      }
      if !(r.time == s.time && r.best == s.best) {
        forall q | Eligible(tiers, len, q) && From(i, 0, q) && Before(q, r.best.value)
          ensures At(tiers, q).timeLast > r.time
        {
          if q.tier == i {
            assert tiers[i].records[q.index] == At(tiers, q);
          }
        }
      } else if !(s.time == time && s.best == best) {
        var b := s.best.value;
        assert In(tiers, b) && At(tiers, b) == tiers[i].records[b.index];
        forall q | Eligible(tiers, len, q) && From(i, 0, q) && Before(q, b)
          ensures At(tiers, q).timeLast > r.time
        {
          assert tiers[i].records[q.index] == At(tiers, q);
        }
      }
    }
  }

  /**
   * NodeOldest returns the first free record of a tier large enough for
   * len when there is one; otherwise the first of the valid records with
   * the smallest access time, provided that time is before now; otherwise
   * nothing.
   */
  lemma OldestChoice(tiers: seq<Tier>, len: int, now: int)
    ensures (exists q :: Eligible(tiers, len, q) && !At(tiers, q).valid) ==>
      Oldest(tiers, len, now).Some? &&
      var p := Oldest(tiers, len, now).value;
      Eligible(tiers, len, p) && !At(tiers, p).valid &&
      forall q :: Eligible(tiers, len, q) && Before(q, p) ==> At(tiers, q).valid
    ensures (forall q :: Eligible(tiers, len, q) ==> At(tiers, q).valid) ==>
      match Oldest(tiers, len, now)
      case None => forall q :: Eligible(tiers, len, q) ==> At(tiers, q).timeLast >= now
      case Some(p) =>
        Eligible(tiers, len, p) && At(tiers, p).timeLast < now &&
        (forall q :: Eligible(tiers, len, q) ==> At(tiers, q).timeLast >= At(tiers, p).timeLast) &&
        (forall q :: Eligible(tiers, len, q) && Before(q, p) ==> At(tiers, q).timeLast > At(tiers, p).timeLast)
  {
    OldestFromFacts(tiers, len, 0, now, None);
    assert forall q :: From(0, 0, q);
  }

  method NodeOldest(tiers: seq<Tier>, len: int, now: int) returns (found: Option<Pos>)
    requires forall i :: 0 <= i < |tiers| ==> |tiers[i].records| <= KVDB_CACHE_EACH_MAXCNT
    ensures found == Oldest(tiers, len, now)
  {
    var oldTime := now;
    var oldest: Option<Pos> := None;
    var i := 0;
    while i < |tiers|
      invariant 0 <= i <= |tiers|
      invariant OldestFrom(tiers, len, 0, now, None) == OldestFrom(tiers, len, i, oldTime, oldest)
      decreases |tiers| - i
    {
      if tiers[i].size >= len {
        var recs := tiers[i].records;
        var j := 0;
        while j < KVDB_CACHE_EACH_MAXCNT && j < |recs|
          invariant 0 <= j <= |recs|
          invariant OldestFrom(tiers, len, 0, now, None) == Continue(tiers, len, i, OldestInTier(recs, i, j, oldTime, oldest))
          decreases |recs| - j
        {
          if recs[j].valid {
            if recs[j].timeLast < oldTime {
              oldTime := recs[j].timeLast;
              oldest := Some(Pos(i, j));
            }
          } else {
            return Some(Pos(i, j));
          }
          j := j + 1;
        }
      }
      i := i + 1;
    }
    return oldest;
  }

  // ---------------------------------------------------------------------------
  // Invalidating and storing records

  /** The cache with the record NodeFind returns for key, if any, invalidated. */
  function Forget(tiers: seq<Tier>, key: string): seq<Tier>
  {
    match Find(tiers, key)
    case Some(p) => Invalidate(tiers, p)
    case None => tiers
  }

  /** The cache with key and value stored at target, if there is one. */
  function StoreAt(tiers: seq<Tier>, target: Option<Pos>, key: string, value: seq<byte>, now: int): seq<Tier>
    requires target.Some? ==> In(tiers, target.value)
  {
    match target
    case Some(p) => Store(tiers, p, key, value, now)
    case None => tiers
  }

  /** Two caches whose tiers have the same capacities and record counts. */
  predicate SameShape(t1: seq<Tier>, t2: seq<Tier>)
  {
    |t1| == |t2| && forall i :: 0 <= i < |t1| ==> t1[i].size == t2[i].size && |t1[i].records| == |t2[i].records|
  }

  /** Forgetting a key in a valid cache keeps it valid, leaves no valid record holding the key and touches no other record. */
  lemma ForgetFacts(tiers: seq<Tier>, key: string)
    requires Valid(tiers)
    ensures var t := Forget(tiers, key);
      Valid(t) && SameShape(t, tiers) &&
      (forall q :: In(t, q) ==> !Holds(At(t, q), key)) &&
      (forall q :: In(t, q) && !Holds(At(tiers, q), key) ==> At(t, q) == At(tiers, q))
  {
    var t := Forget(tiers, key);
    FindFirst(tiers, key);
    match Find(tiers, key)
    case None =>
    case Some(p) =>
      var r := At(tiers, p).(valid := false);
      forall q | In(tiers, q) ensures At(t, q) == if q == p then r else At(tiers, q) {
        AtSetAt(tiers, p, r, q);
      }
      forall q | In(t, q) ensures !Holds(At(t, q), key) {
        AtSetAt(tiers, p, r, q);
      }
  }

  /** Storing key where no valid record holds it, in a record large enough, keeps the cache valid and makes that record the one found. */
  lemma StoreFacts(tiers: seq<Tier>, p: Pos, key: string, value: seq<byte>, now: int)
    requires Valid(tiers) && Eligible(tiers, |value|, p)
    requires forall q :: In(tiers, q) ==> !Holds(At(tiers, q), key)
    ensures var t := Store(tiers, p, key, value, now);
      Valid(t) && SameShape(t, tiers) && Find(t, key) == Some(p) && At(t, p) == Record(true, now, key, value)
  {
    var r := Record(true, now, key, value);
    var t := Store(tiers, p, key, value, now);
    forall q | In(tiers, q) ensures In(t, q) && At(t, q) == if q == p then r else At(tiers, q) {
      AtSetAt(tiers, p, r, q);
    }
    FindUnique(t, key, p);
  }

  /** Refreshing a record's access time keeps the cache valid and changes nothing else. */
  lemma TouchFacts(tiers: seq<Tier>, p: Pos, now: int)
    requires Valid(tiers) && In(tiers, p)
    ensures var t := Touch(tiers, p, now);
      Valid(t) && SameShape(t, tiers) && At(t, p) == At(tiers, p).(timeLast := now) &&
      forall q :: In(t, q) && q != p ==> At(t, q) == At(tiers, q)
  {
    var r := At(tiers, p).(timeLast := now);
    forall q | In(tiers, q) ensures At(Touch(tiers, p, now), q) == if q == p then r else At(tiers, q) {
      AtSetAt(tiers, p, r, q);
    }
  }

  // ---------------------------------------------------------------------------
  // Replace

  function FirstFit(tiers: seq<Tier>, len: int, i: nat): (r: nat)
    ensures i <= r || r == i
    ensures r < |tiers| ==> tiers[r].size >= len
    decreases |tiers| - i
  {
    if i >= |tiers| then i
    else if len <= tiers[i].size then i
    else FirstFit(tiers, len, i + 1)
  }

  lemma {:induction false} FirstFitShape(t1: seq<Tier>, t2: seq<Tier>, len: int, i: nat)
    requires SameShape(t1, t2)
    ensures FirstFit(t1, len, i) == FirstFit(t2, len, i)
    ensures FirstFit(t1, len, i) >= |t1| ==> forall k :: i <= k < |t1| ==> t1[k].size < len
    decreases |t1| - i
  {
    if i < |t1| && t1[i].size < len {
      FirstFitShape(t1, t2, len, i + 1);
    }
  }

  /** Where Replace stores a value of len bytes: NodeOldest's choice, else the head of the first tier large enough. */
  function Target(tiers: seq<Tier>, len: int, now: int): (r: Option<Pos>)
    ensures r.Some? ==> Eligible(tiers, len, r.value)
  {
    match Oldest(tiers, len, now)
    case Some(p) => Some(p)
    case None =>
      var i := FirstFit(tiers, len, 0);
      if i < |tiers| && |tiers[i].records| > 0 then Some(Pos(i, 0)) else None
  }

  /** The outcome of an operation: its error code, and the new cache and folder. */
  datatype Outcome = Outcome(err: int, tiers: seq<Tier>, files: Files)

  /**
   * Replace: a bad key changes nothing; a cached record with identical bytes
   * only gets its access time refreshed; otherwise the old record is
   * invalidated, a non-empty value is cached where Target says, and the
   * file is deleted (empty value) or written unless it already holds
   * exactly the value. openFails says whether opening the file for writing
   * fails; written is how many bytes the write then stores. Opening for
   * writing truncates the file, so a short write leaves the first written
   * bytes in it and fails with the write error, the cache already updated.
   */
  function Replaced(tiers: seq<Tier>, files: Files, key: string, value: seq<byte>, now: int, openFails: bool, written: nat): Outcome
  {
    if !ValidKey(key) then Outcome(KVDB_ERR_INVALID_PARAM, tiers, files)
    else
      var found := Find(tiers, key);
      if found.Some? && At(tiers, found.value).value == value then
        Outcome(KVDB_ERR_OK, Touch(tiers, found.value, now), files)
      else
        var needWrite := !(found.None? && |value| > 0 && key in files && files[key] == value);
        var cleared := Forget(tiers, key);
        var placed := if |value| > 0 then StoreAt(cleared, Target(cleared, |value|, now), key, value, now) else cleared;
        if |value| == 0 then
          if key in files then Outcome(KVDB_ERR_OK, placed, files - {key}) else Outcome(KVDB_ERR_WRITE_FILE, placed, files)
        else if !needWrite then Outcome(KVDB_ERR_OK, placed, files)
        else if openFails then Outcome(KVDB_ERR_OPEN_FILE, placed, files)
        else if written < |value| then Outcome(KVDB_ERR_WRITE_FILE, placed, files[key := value[..written]])
        else Outcome(KVDB_ERR_OK, placed, files[key := value])
  }

  /** The cache after forgetting key and storing value where Target says. */
  lemma PlaceFacts(tiers: seq<Tier>, key: string, value: seq<byte>, now: int)
    requires Valid(tiers) && |value| > 0
    ensures var cleared := Forget(tiers, key);
      var t := StoreAt(cleared, Target(cleared, |value|, now), key, value, now);
      Valid(t) && SameShape(t, tiers) &&
      (Target(cleared, |value|, now).Some? ==> Find(t, key).Some? && At(t, Find(t, key).value).value == value) &&
      (Target(cleared, |value|, now).None? ==> Find(t, key).None?)
  {
    var cleared := Forget(tiers, key);
    ForgetFacts(tiers, key);
    match Target(cleared, |value|, now)
    case Some(p) => StoreFacts(cleared, p, key, value, now);
    case None => FindFirst(cleared, key);
  }

  /** Every Replace keeps the cache valid: in particular at most one valid record holds any key. */
  lemma ReplaceKeepsValid(tiers: seq<Tier>, files: Files, key: string, value: seq<byte>, now: int, openFails: bool, written: nat)
    requires Valid(tiers)
    ensures Valid(Replaced(tiers, files, key, value, now, openFails, written).tiers)
    ensures SameShape(Replaced(tiers, files, key, value, now, openFails, written).tiers, tiers)
  {
    if ValidKey(key) {
      var found := Find(tiers, key);
      if found.Some? && At(tiers, found.value).value == value {
        TouchFacts(tiers, found.value, now);
      } else if |value| > 0 {
        PlaceFacts(tiers, key, value, now);
      } else {
        ForgetFacts(tiers, key);
      }
    }
  }

  /** Replacing a cached record with identical bytes refreshes its time and changes nothing else. */
  lemma ReplaceSameRefreshes(tiers: seq<Tier>, files: Files, key: string, value: seq<byte>, now: int, openFails: bool, written: nat, p: Pos)
    requires Valid(tiers) && ValidKey(key) && In(tiers, p) && Holds(At(tiers, p), key) && At(tiers, p).value == value
    ensures var r := Replaced(tiers, files, key, value, now, openFails, written);
      r.err == KVDB_ERR_OK && r.files == files && At(r.tiers, p) == At(tiers, p).(timeLast := now) &&
      forall q :: In(r.tiers, q) && q != p ==> At(r.tiers, q) == At(tiers, q)
  {
    FindUnique(tiers, key, p);
    TouchFacts(tiers, p, now);
  }

  /**
   * After a Replace with a non-empty value the key is cached with that value
   * or not at all: never when no tier is large enough, always when the first
   * tier large enough has a record.
   */
  lemma ReplaceCaches(tiers: seq<Tier>, files: Files, key: string, value: seq<byte>, now: int, openFails: bool, written: nat)
    requires Valid(tiers) && ValidKey(key) && |value| > 0
    ensures var t := Replaced(tiers, files, key, value, now, openFails, written).tiers;
      (Find(t, key).Some? ==> At(t, Find(t, key).value).value == value) &&
      ((forall i :: 0 <= i < |tiers| ==> tiers[i].size < |value|) ==> Find(t, key).None?) &&
      (FirstFit(tiers, |value|, 0) < |tiers| && |tiers[FirstFit(tiers, |value|, 0)].records| > 0 ==> Find(t, key).Some?)
  {
    var found := Find(tiers, key);
    if found.Some? && At(tiers, found.value).value == value {
      assert Replaced(tiers, files, key, value, now, openFails, written).tiers == Touch(tiers, found.value, now);
      ReplaceCachesSame(tiers, key, value, now, found.value);
    } else {
      var cleared := Forget(tiers, key);
      assert Replaced(tiers, files, key, value, now, openFails, written).tiers ==
        StoreAt(cleared, Target(cleared, |value|, now), key, value, now);
      ReplaceCachesPlaced(tiers, key, value, now);
    }
  }

  lemma ReplaceCachesSame(tiers: seq<Tier>, key: string, value: seq<byte>, now: int, p: Pos)
    requires Valid(tiers) && In(tiers, p) && Holds(At(tiers, p), key) && At(tiers, p).value == value
    ensures var t := Touch(tiers, p, now);
      Find(t, key) == Some(p) && At(t, p).value == value && tiers[p.tier].size >= |value|
  {
    TouchFacts(tiers, p, now);
    FindUnique(Touch(tiers, p, now), key, p);
  }

  lemma ReplaceCachesPlaced(tiers: seq<Tier>, key: string, value: seq<byte>, now: int)
    requires Valid(tiers) && |value| > 0
    ensures var cleared := Forget(tiers, key);
      var t := StoreAt(cleared, Target(cleared, |value|, now), key, value, now);
      (Find(t, key).Some? ==> At(t, Find(t, key).value).value == value) &&
      ((forall i :: 0 <= i < |tiers| ==> tiers[i].size < |value|) ==> Find(t, key).None?) &&
      (FirstFit(tiers, |value|, 0) < |tiers| && |tiers[FirstFit(tiers, |value|, 0)].records| > 0 ==> Find(t, key).Some?)
  {
    PlaceFacts(tiers, key, value, now);
    var cleared := Forget(tiers, key);
    ForgetFacts(tiers, key);
    FirstFitShape(cleared, tiers, |value|, 0);
  }

  /**
   * A Replace that must write succeeds exactly when the file opens and the
   * whole value is written: then the key's file holds exactly the value. A
   * failed open leaves the file alone; a short write leaves a strict prefix
   * of the value in it. Every other file stays as it was.
   */
  lemma ReplaceWritesFile(tiers: seq<Tier>, files: Files, key: string, value: seq<byte>, now: int, openFails: bool, written: nat)
    requires ValidKey(key) && |value| > 0
    requires Find(tiers, key).None? || At(tiers, Find(tiers, key).value).value != value
    ensures var r := Replaced(tiers, files, key, value, now, openFails, written);
      (r.err == KVDB_ERR_OK <==>
        (!openFails && written >= |value|) || (Find(tiers, key).None? && key in files && files[key] == value)) &&
      (r.err == KVDB_ERR_OK ==> key in r.files && r.files[key] == value) &&
      (r.err == KVDB_ERR_OPEN_FILE <==> r.err != KVDB_ERR_OK && openFails) &&
      (r.err == KVDB_ERR_OPEN_FILE ==> r.files == files) &&
      (r.err == KVDB_ERR_WRITE_FILE <==> r.err != KVDB_ERR_OK && !openFails) &&
      (r.err == KVDB_ERR_WRITE_FILE ==> key in r.files && r.files[key] == value[..written] && |r.files[key]| < |value|) &&
      forall k :: k != key ==> (k in r.files <==> k in files) && (k in files ==> r.files[k] == files[k])
  {
  }

  /** Replace with an empty value forgets the key, deletes its file, and fails exactly when there was no file. */
  lemma ReplaceEmptyDeletes(tiers: seq<Tier>, files: Files, key: string, now: int, openFails: bool, written: nat)
    requires Valid(tiers) && ValidKey(key)
    requires Find(tiers, key).None? || At(tiers, Find(tiers, key).value).value != []
    ensures var r := Replaced(tiers, files, key, [], now, openFails, written);
      Find(r.tiers, key).None? && key !in r.files &&
      (r.err == KVDB_ERR_OK <==> key in files) && (r.err != KVDB_ERR_OK ==> r.err == KVDB_ERR_WRITE_FILE)
  {
    ForgetFacts(tiers, key);
    FindFirst(Forget(tiers, key), key);
  }

  // ---------------------------------------------------------------------------
  // Remove

  /** Remove: a bad key changes nothing; otherwise the key is forgotten and its file deleted, failing when there is none. */
  function RemovedFrom(tiers: seq<Tier>, files: Files, key: string): Outcome
  {
    if !ValidKey(key) then Outcome(KVDB_ERR_INVALID_PARAM, tiers, files)
    else if key in files then Outcome(KVDB_ERR_OK, Forget(tiers, key), files - {key})
    else Outcome(KVDB_ERR_WRITE_FILE, Forget(tiers, key), files)
  }

  /** After Remove the key is neither cached nor on file, every other record stays, and the cache stays valid. */
  lemma RemoveForgets(tiers: seq<Tier>, files: Files, key: string)
    requires Valid(tiers) && ValidKey(key)
    ensures var r := RemovedFrom(tiers, files, key);
      Valid(r.tiers) && Find(r.tiers, key).None? && key !in r.files &&
      (r.err == KVDB_ERR_OK <==> key in files) &&
      (forall q :: In(r.tiers, q) && !Holds(At(tiers, q), key) ==> At(r.tiers, q) == At(tiers, q))
  {
    ForgetFacts(tiers, key);
    FindFirst(Forget(tiers, key), key);
  }

  /** Removing right after a Replace forgets the key again. */
  lemma RemoveAfterReplace(tiers: seq<Tier>, files: Files, key: string, value: seq<byte>, now: int, openFails: bool, written: nat)
    requires Valid(tiers) && ValidKey(key)
    ensures var r := Replaced(tiers, files, key, value, now, openFails, written);
      var d := RemovedFrom(r.tiers, r.files, key);
      Find(d.tiers, key).None? && key !in d.files
  {
    ReplaceKeepsValid(tiers, files, key, value, now, openFails, written);
    RemoveForgets(Replaced(tiers, files, key, value, now, openFails, written).tiers,
                  Replaced(tiers, files, key, value, now, openFails, written).files, key);
  }

  // ---------------------------------------------------------------------------
  // Seek

  /** The outcome of a lookup: error code, the bytes returned, and the new cache. */
  datatype Sought = Sought(err: int, data: seq<byte>, tiers: seq<Tier>)

  /**
   * Seek into a caller buffer of capacity bytes: a bad key or capacity
   * changes nothing; a cached record yields its first bytes up to the
   * capacity and is left as it is; otherwise the file yields them and is
   * cached whole where NodeOldest says.
   */
  function SeekBytes(tiers: seq<Tier>, files: Files, key: string, capacity: int, now: int): Sought
  {
    if !ValidKey(key) || capacity <= 0 then Sought(KVDB_ERR_INVALID_PARAM, [], tiers)
    else match Find(tiers, key)
      case Some(p) =>
        var v := At(tiers, p).value;
        Sought(KVDB_ERR_OK, v[..Min(capacity, |v|)], tiers)
      case None =>
        if key !in files then Sought(KVDB_ERR_OPEN_FILE, [], tiers)
        else
          var f := files[key];
          Sought(KVDB_ERR_OK, f[..Min(capacity, |f|)], StoreAt(tiers, Oldest(tiers, |f|, now), key, f, now))
  }

  /** The cache after a missed lookup stored the file where NodeOldest says. */
  lemma CacheFacts(tiers: seq<Tier>, key: string, f: seq<byte>, now: int)
    requires Valid(tiers) && Find(tiers, key).None?
    ensures var t := StoreAt(tiers, Oldest(tiers, |f|, now), key, f, now);
      Valid(t) && SameShape(t, tiers) &&
      (Find(t, key).Some? ==> At(t, Find(t, key).value).value == f)
  {
    FindFirst(tiers, key);
    if Oldest(tiers, |f|, now).Some? {
      StoreFacts(tiers, Oldest(tiers, |f|, now).value, key, f, now);
    }
  }

  /**
   * A successful lookup returns at most capacity bytes, a prefix of the
   * cached value or of the file; a hit leaves the cache untouched, access
   * times included; a miss caches the whole file.
   */
  lemma SeekBytesMeaning(tiers: seq<Tier>, files: Files, key: string, capacity: int, now: int)
    requires Valid(tiers)
    ensures var r := SeekBytes(tiers, files, key, capacity, now);
      Valid(r.tiers) && |r.data| <= (if capacity < 0 then 0 else capacity) &&
      (Find(tiers, key).Some? && r.err == KVDB_ERR_OK ==>
        r.tiers == tiers && r.data <= At(tiers, Find(tiers, key).value).value) &&
      (Find(tiers, key).None? && r.err == KVDB_ERR_OK ==>
        key in files && r.data <= files[key] &&
        (Find(r.tiers, key).Some? ==> At(r.tiers, Find(r.tiers, key).value).value == files[key]))
  {
    if ValidKey(key) && capacity > 0 && Find(tiers, key).None? && key in files {
      CacheFacts(tiers, key, files[key], now);
    }
  }

  /** The bytes of b before its first zero byte: what appending b as a C string keeps. */
  function CString(b: seq<byte>): (r: seq<byte>)
    ensures r <= b
    ensures 0 !in b ==> r == b
  {
    if b == [] || b[0] == 0 then [] else [b[0]] + CString(b[1..])
  }

  /** The file's 1024-byte chunks from off on, each appended as a C string. */
  function Chunks(f: seq<byte>, off: nat): seq<byte>
    decreases |f| - off
  {
    if off >= |f| then [] else CString(f[off..Min(off + KVDB_TMP_BUFFER_LEN, |f|)]) + Chunks(f, Min(off + KVDB_TMP_BUFFER_LEN, |f|))
  }

  /** A file with no zero byte is returned whole. */
  lemma {:induction false} ChunksWithoutZero(f: seq<byte>, off: nat)
    requires 0 !in f && off <= |f|
    ensures Chunks(f, off) == f[off..]
    decreases |f| - off
  {
    if off < |f| {
      var end := Min(off + KVDB_TMP_BUFFER_LEN, |f|);
      assert 0 !in f[off..end];
      ChunksWithoutZero(f, end);
      assert f[off..] == f[off..end] + f[end..];
    }
  }

  /**
   * Seek into a string: a bad key changes nothing, prior being the caller's
   * string; a cached record yields its value as a C string; otherwise the
   * file's chunks are appended as C strings and the file is cached whole.
   */
  function SeekString(tiers: seq<Tier>, files: Files, key: string, prior: seq<byte>, now: int): Sought
  {
    if !ValidKey(key) then Sought(KVDB_ERR_INVALID_PARAM, prior, tiers)
    else match Find(tiers, key)
      case Some(p) => Sought(KVDB_ERR_OK, CString(At(tiers, p).value), tiers)
      case None =>
        if key !in files then Sought(KVDB_ERR_OPEN_FILE, [], tiers)
        else
          var f := files[key];
          Sought(KVDB_ERR_OK, Chunks(f, 0), StoreAt(tiers, Oldest(tiers, |f|, now), key, f, now))
  }

  /** A value without zero bytes comes back whole, from the cache or from the file. */
  lemma SeekStringMeaning(tiers: seq<Tier>, files: Files, key: string, prior: seq<byte>, now: int)
    requires Valid(tiers) && ValidKey(key)
    ensures var r := SeekString(tiers, files, key, prior, now);
      Valid(r.tiers) &&
      (Find(tiers, key).Some? ==> var v := At(tiers, Find(tiers, key).value).value;
         r.err == KVDB_ERR_OK && r.tiers == tiers && (0 !in v ==> r.data == v)) &&
      (Find(tiers, key).None? ==> ((r.err == KVDB_ERR_OK <==> key in files) &&
         (key in files && 0 !in files[key] ==> r.data == files[key])))
  {
    if Find(tiers, key).None? && key in files {
      CacheFacts(tiers, key, files[key], now);
      if 0 !in files[key] {
        ChunksWithoutZero(files[key], 0);
      }
    }
  }

  // ---------------------------------------------------------------------------
  // Clear

  function ClearedTier(t: Tier): Tier
  {
    Tier(t.size, seq(|t.records|, j requires 0 <= j < |t.records| => t.records[j].(valid := false)))
  }

  /** Clear's cache half: every record invalidated. */
  function Cleared(tiers: seq<Tier>): seq<Tier>
  {
    seq(|tiers|, i requires 0 <= i < |tiers| => ClearedTier(tiers[i]))
  }

  /** After Clear no key is found, the shape is kept and the cache is valid. */
  lemma ClearForgetsAll(tiers: seq<Tier>, key: string)
    requires Valid(tiers)
    ensures Find(Cleared(tiers), key).None? && SameShape(Cleared(tiers), tiers) && Valid(Cleared(tiers))
  {
    FindFirst(Cleared(tiers), key);
    assert forall q :: In(Cleared(tiers), q) ==> !At(Cleared(tiers), q).valid;
  }

  // ---------------------------------------------------------------------------
  // The loops of the operations

  /** Compares a file with a value of the same length 1024 bytes at a time. */
  method CompareChunks(file: seq<byte>, value: seq<byte>) returns (same: bool)
    requires |file| == |value|
    ensures same <==> file == value
  {
    var off := 0;
    while off < |file|
      invariant 0 <= off <= |file|
      invariant file[..off] == value[..off]
      decreases |file| - off
    {
      var end := Min(off + KVDB_TMP_BUFFER_LEN, |file|);
      if file[off..end] != value[off..end] {
        assert file[off..end] == file[..end][off..] && value[off..end] == value[..end][off..];
        return false;
      }
      assert file[..end] == file[..off] + file[off..end] && value[..end] == value[..off] + value[off..end];
      off := end;
    }
    assert file == file[..off] && value == value[..off];
    return true;
  }

  /** The index of the first tier whose capacity is at least len, or the tier count. */
  method FirstFitIndex(tiers: seq<Tier>, len: int) returns (i: nat)
    ensures i == FirstFit(tiers, len, 0)
  {
    i := 0;
    while i < |tiers|
      invariant i <= |tiers| && FirstFit(tiers, len, 0) == FirstFit(tiers, len, i)
      decreases |tiers| - i
    {
      if len <= tiers[i].size {
        break;
      }
      i := i + 1;
    }
  }

  /** Reads a file 1024 bytes at a time: the first n bytes for the caller and the whole file for the cache. */
  method ReadFile(f: seq<byte>, n: int) returns (data: seq<byte>, all: seq<byte>)
    requires 0 <= n <= |f|
    ensures data == f[..n] && all == f
  {
    data, all := [], [];
    var rd := 0;
    while rd < |f|
      invariant 0 <= rd <= |f| && all == f[..rd] && data == f[..Min(rd, n)]
      decreases |f| - rd
    {
      var end := Min(rd + KVDB_TMP_BUFFER_LEN, |f|);
      if rd < n {
        var take := Min(end, n);
        assert f[..take] == f[..rd] + f[rd..take];
        data := data + f[rd..take];
      }
      assert f[..end] == f[..rd] + f[rd..end];
      all := all + f[rd..end];
      rd := end;
    }
    assert all == f;
  }

  /** Reads a file 1024 bytes at a time, appending each chunk as a C string. */
  method ReadChunks(f: seq<byte>) returns (value: seq<byte>)
    ensures value == Chunks(f, 0)
  {
    value := [];
    var rd := 0;
    while rd < |f|
      invariant 0 <= rd <= |f| && Chunks(f, 0) == value + Chunks(f, rd)
      decreases |f| - rd
    {
      var end := Min(rd + KVDB_TMP_BUFFER_LEN, |f|);
      assert Chunks(f, rd) == CString(f[rd..end]) + Chunks(f, end);
      AppendAssoc(value, CString(f[rd..end]), Chunks(f, end));
      value := value + CString(f[rd..end]);
      rd := end;
    }
    assert value + [] == value;
  }

  /** Invalidates every record, tier by tier. */
  method ClearRecords(tiers: seq<Tier>) returns (t: seq<Tier>)
    requires forall i :: 0 <= i < |tiers| ==> |tiers[i].records| <= KVDB_CACHE_EACH_MAXCNT
    ensures t == Cleared(tiers)
  {
    t := tiers;
    var i := 0;
    while i < |t|
      invariant 0 <= i <= |t| == |tiers|
      invariant forall k :: 0 <= k < i ==> t[k] == ClearedTier(tiers[k])
      invariant forall k :: i <= k < |t| ==> t[k] == tiers[k]
      decreases |t| - i
    {
      var recs := t[i].records;
      var j := 0;
      while j < KVDB_CACHE_EACH_MAXCNT && j < |recs|
        invariant 0 <= j <= |recs| == |tiers[i].records|
        invariant forall l :: 0 <= l < j ==> recs[l] == tiers[i].records[l].(valid := false)
        invariant forall l :: j <= l < |recs| ==> recs[l] == tiers[i].records[l]
        decreases |recs| - j
      {
        recs := recs[j := recs[j].(valid := false)];
        j := j + 1;
      }
      t := t[i := Tier(t[i].size, recs)];
      i := i + 1;
    }
  }

  // ---------------------------------------------------------------------------
  // The service

  class KvdbService {
    /** The tiers, in the order the caller defined them. */
    var tiers: seq<Tier>
    /** The folder's files, by key. */
    var files: Files

    /** Clamps the tier count to [0, 4] and each tier to at most 1000 records, all free; folder is what the folder already holds. */
    constructor(cache: seq<KvdbCache>, cacheCnt: int, folder: Files)
      requires TierCount(cacheCnt) <= |cache|
      ensures |tiers| == TierCount(cacheCnt) && forall i :: 0 <= i < |tiers| ==> tiers[i] == InitialTier(cache[i])
      ensures files == folder && Valid(tiers)
    {
      var t := BuildTiers(cache, TierCount(cacheCnt));
      InitialCache(cache, cacheCnt, t);
      tiers := t;
      files := folder;
    }

    /**
     * Adds or changes the record for key; openFails says whether opening its
     * file for writing fails, written how many bytes the write stores.
     */
    method Replace(key: string, value: seq<byte>, now: int, openFails: bool, written: nat) returns (err: int)
      requires Valid(tiers)
      modifies this
      ensures Outcome(err, tiers, files) == Replaced(old(tiers), old(files), key, value, now, openFails, written)
      ensures Valid(tiers)
    {
      ReplaceKeepsValid(tiers, files, key, value, now, openFails, written);
      if !ValidKey(key) {
        return KVDB_ERR_INVALID_PARAM;
      }
      var found := NodeFind(tiers, key);
      var needWrite := true;
      if found.Some? {
        var record := At(tiers, found.value);
        if |value| == |record.value| && value == record.value {
          tiers := Touch(tiers, found.value, now);
          return KVDB_ERR_OK;
        }
      } else if |value| > 0 && key in files && |files[key]| == |value| {
        var same := CompareChunks(files[key], value);
        needWrite := !same;
      }
      tiers := Forget(tiers, key);
      if |value| > 0 {
        tiers := Place(tiers, key, value, now);
      }
      if |value| == 0 {
        if key !in files {
          return KVDB_ERR_WRITE_FILE;
        }
        files := files - {key};
        return KVDB_ERR_OK;
      }
      if needWrite {
        if openFails {
          return KVDB_ERR_OPEN_FILE;
        }
        if written < |value| {
          files := files[key := value[..written]];
          return KVDB_ERR_WRITE_FILE;
        }
        files := files[key := value];
      }
      return KVDB_ERR_OK;
    }

    /** Forgets key and deletes its file. */
    method Remove(key: string) returns (err: int)
      requires Valid(tiers)
      modifies this
      ensures Outcome(err, tiers, files) == RemovedFrom(old(tiers), old(files), key)
      ensures Valid(tiers)
    {
      if !ValidKey(key) {
        return KVDB_ERR_INVALID_PARAM;
      }
      ForgetFacts(tiers, key);
      tiers := Forget(tiers, key);
      if key !in files {
        return KVDB_ERR_WRITE_FILE;
      }
      files := files - {key};
      return KVDB_ERR_OK;
    }

    /** Looks key up into a caller buffer of capacity bytes. */
    method Seek(key: string, capacity: int, now: int) returns (err: int, data: seq<byte>)
      requires Valid(tiers)
      modifies this
      ensures Sought(err, data, tiers) == SeekBytes(old(tiers), old(files), key, capacity, now)
      ensures files == old(files) && Valid(tiers)
    {
      SeekBytesMeaning(tiers, files, key, capacity, now);
      if !ValidKey(key) || capacity <= 0 {
        return KVDB_ERR_INVALID_PARAM, [];
      }
      var found := NodeFind(tiers, key);
      if found.Some? {
        var v := At(tiers, found.value).value;
        return KVDB_ERR_OK, v[..Min(capacity, |v|)];
      }
      if key !in files {
        return KVDB_ERR_OPEN_FILE, [];
      }
      var f := files[key];
      var record := NodeOldest(tiers, |f|, now);
      var all;
      data, all := ReadFile(f, Min(capacity, |f|));
      tiers := StoreAt(tiers, record, key, all, now);
      err := KVDB_ERR_OK;
    }

    /** Looks key up into a string; prior is the string's contents before the call. */
    method SeekToString(key: string, prior: seq<byte>, now: int) returns (err: int, value: seq<byte>)
      requires Valid(tiers)
      modifies this
      ensures Sought(err, value, tiers) == SeekString(old(tiers), old(files), key, prior, now)
      ensures files == old(files) && Valid(tiers)
    {
      SeekStringValid(tiers, files, key, prior, now);
      if !ValidKey(key) {
        return KVDB_ERR_INVALID_PARAM, prior;
      }
      var found := NodeFind(tiers, key);
      if found.Some? {
        return KVDB_ERR_OK, CString(At(tiers, found.value).value);
      }
      if key !in files {
        return KVDB_ERR_OPEN_FILE, [];
      }
      var f := files[key];
      var record := NodeOldest(tiers, |f|, now);
      value := ReadChunks(f);
      tiers := StoreAt(tiers, record, key, f, now);
      err := KVDB_ERR_OK;
    }

    /** Clear's cache half: invalidates every record. */
    method ClearCache()
      requires Valid(tiers)
      modifies this
      ensures tiers == Cleared(old(tiers)) && files == old(files) && Valid(tiers)
    {
      ClearForgetsAll(tiers, "");
      tiers := ClearRecords(tiers);
    }
  }

  /** Stores value where Target says, with Replace's fallback to the head of the first tier large enough. */
  method Place(tiers: seq<Tier>, key: string, value: seq<byte>, now: int) returns (t: seq<Tier>)
    requires forall i :: 0 <= i < |tiers| ==> |tiers[i].records| <= KVDB_CACHE_EACH_MAXCNT
    ensures t == StoreAt(tiers, Target(tiers, |value|, now), key, value, now)
  {
    var target := NodeOldest(tiers, |value|, now);
    if target.None? {
      var i := FirstFitIndex(tiers, |value|);
      if i < |tiers| && |tiers[i].records| > 0 {
        target := Some(Pos(i, 0));
      }
    }
    t := StoreAt(tiers, target, key, value, now);
  }

  lemma SeekStringValid(tiers: seq<Tier>, files: Files, key: string, prior: seq<byte>, now: int)
    requires Valid(tiers)
    ensures Valid(SeekString(tiers, files, key, prior, now).tiers)
  {
    if ValidKey(key) && Find(tiers, key).None? && key in files {
      CacheFacts(tiers, key, files[key], now);
    }
  }

  // ---------------------------------------------------------------------------
  // The comparison and read loops as the source writes them

  /**
   * Replace's file comparison as written: each chunk read from the file is
   * compared with the first bytes of value rather than with the bytes at
   * the chunk's own offset.
   */
  predicate ChunksMatchAsWritten(file: seq<byte>, value: seq<byte>, off: nat)
    requires |file| == |value|
    decreases |file| - off
  {
    off >= |file| ||
    (var end := Min(off + KVDB_TMP_BUFFER_LEN, |file|);
     file[off..end] == value[..end - off] && ChunksMatchAsWritten(file, value, end))
  }

  /** A 1025-byte value differing from its file only in the last byte passes the comparison, so the stale file is kept. */
  lemma StaleFileKept()
    ensures var value := seq(1025, i => if i < 1024 then 0 as byte else 1 as byte);
      var file := seq(1025, i => 0 as byte);
      ChunksMatchAsWritten(file, value, 0) && file != value
  {
    var value := seq(1025, i => if i < 1024 then 0 as byte else 1 as byte);
    var file := seq(1025, i => 0 as byte);
    assert file[0..1024] == value[..1024];
    assert file[1024..1025] == value[..1];
    assert ChunksMatchAsWritten(file, value, 1025);
    assert file[1024] != value[1024];
  }

  /**
   * The byte count Seek into a buffer reads as written: whole 1024-byte
   * chunks while fewer than n bytes have been read. Both the caller's buffer
   * and the cached record receive that many bytes.
   */
  function ReadLengthAsWritten(fileLen: nat, n: int, rd: nat): nat
    decreases fileLen - rd
  {
    if rd >= n || rd >= fileLen then rd
    else ReadLengthAsWritten(fileLen, n, rd + Min(KVDB_TMP_BUFFER_LEN, fileLen - rd))
  }

  /** A one-byte buffer receives two bytes from a two-byte file, and 1024 of a 2048-byte file are cached as the whole value. */
  lemma SeekOverrunsBuffer()
    ensures ReadLengthAsWritten(2, 1, 0) == 2
    ensures ReadLengthAsWritten(2048, 1, 0) == 1024
  {
    assert ReadLengthAsWritten(2, 1, 2) == 2;
    assert ReadLengthAsWritten(2048, 1, 1024) == 1024;
  }
}

