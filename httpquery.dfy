// The query-string splitter of the HTTP socket: "k1=v1&k2=v2" into a map
// that keeps the first value of a repeated key.

module HttpQuery {
  import opened Replies
  import opened Lists

  /** The first position at or after i holding c, or |s| when there is none; i itself once it is past the end. */
  function Find(s: string, i: nat, c: char): (j: nat)
    ensures i <= j && (j <= |s| || j == i)
    decreases |s| - i
  {
    if i >= |s| then i
    else if s[i] == c then i
    else Find(s, i + 1, c)
  }

  /** What Find finds: no c before it, and c at it unless it is the end. */
  lemma {:induction false} FindFacts(s: string, i: nat, c: char)
    ensures forall l :: i <= l < Find(s, i, c) ==> s[l] != c
    ensures Find(s, i, c) < |s| ==> s[Find(s, i, c)] == c
    decreases |s| - i
  {
    if i < |s| && s[i] != c {
      FindFacts(s, i + 1, c);
    }
  }

  /** The characterisation of Find: any position with its three facts is it. */
  lemma {:induction false} FindUnique(s: string, i: nat, c: char, j: nat)
    requires i <= j && (j <= |s| || j == i)
    requires forall l :: i <= l < j ==> s[l] != c
    requires j < |s| ==> s[j] == c
    ensures Find(s, i, c) == j
    decreases |s| - i
  {
    if i < |s| && s[i] != c {
      FindUnique(s, i + 1, c, j);
    }
  }

  /** A key and its value. */
  datatype Pair = Pair(key: string, value: string)

  /** Where the key starting at i ends: the next '=' or the end. */
  function KeyEnd(s: string, i: nat): nat
  {
    Find(s, i, '=')
  }

  /** Where the value after that '=' ends: the next '&' or the end; just past the key when it has no '='. */
  function ValueEnd(s: string, i: nat): nat
  {
    Find(s, KeyEnd(s, i) + 1, '&')
  }

  /** The pair starting at i; a key without '=' gets an empty value. */
  function Head(s: string, i: nat): Pair
    requires i < |s|
  {
    var k := KeyEnd(s, i);
    Pair(s[i..k], if k < |s| then s[k + 1..ValueEnd(s, i)] else [])
  }

  /**
   * The pairs of a query from position i on, left to right: a key runs up to
   * the next '=' (so it may contain '&'), its value up to the next '&'.
   */
  function SplitFrom(s: string, i: nat): seq<Pair>
    decreases |s| - i
  {
    if i >= |s| then []
    else [Head(s, i)] + SplitFrom(s, ValueEnd(s, i) + 1)
  }

  /** The pairs of a whole query. */
  function Split(s: string): seq<Pair>
  {
    SplitFrom(s, 0)
  }

  /** map::insert, pair by pair: a key already present keeps its value. */
  function InsertAll(m: map<string, string>, ps: seq<Pair>): map<string, string>
    decreases |ps|
  {
    if ps == [] then m
    else InsertAll(Insert(m, ps[0]), ps[1..])
  }

  /** map::insert of one pair: a key already present keeps its value. */
  function Insert(m: map<string, string>, p: Pair): map<string, string>
  {
    if p.key in m then m else m[p.key := p.value]
  }

  lemma InsertAllCons(m: map<string, string>, p: Pair, ps: seq<Pair>)
    ensures InsertAll(m, [p] + ps) == InsertAll(Insert(m, p), ps)
  {
    assert ([p] + ps)[1..] == ps;
  }

  /** The map of a query inserted into an empty map. */
  function QueryMap(query: string): map<string, string>
  {
    InsertAll(map[], Split(query))
  }

  /**
   * Splits req into key/value pairs and inserts each into keyValues, an
   * existing key keeping its value. The loops here test the bound first;
   * the source tests the character first, so it also reads one or two
   * bytes past the end, which cannot change the pairs since the bound then
   * stops the loop.
   */
  method ParserRequestURL(req: string, keyValues: map<string, string>) returns (kv: map<string, string>)
    ensures kv == InsertAll(keyValues, Split(req))
  {
    kv := keyValues;
    var i := 0;
    while i < |req|
      invariant InsertAll(kv, SplitFrom(req, i)) == InsertAll(keyValues, Split(req))
      decreases |req| - i
    {
      InsertRound(kv, req, i);
      var key, value;
      key, value, i := ScanPair(req, i);
      kv := Insert(kv, Pair(key, value));
    }
  }

  /** One round of the outer loop: the key, the skipped '=', the value, the skipped '&'. */
  method ScanPair(req: string, i: nat) returns (key: string, value: string, j: nat)
    requires i < |req|
    ensures Pair(key, value) == Head(req, i) && j == ValueEnd(req, i) + 1
  {
    key, j := ScanKey(req, i);
    j := j + 1;
    value, j := ScanValue(req, j);
    j := j + 1;
  }

  /** One round of the split: the pair at i, then the pairs after its '&'. */
  lemma SplitFromStep(s: string, i: nat)
    requires i < |s|
    ensures SplitFrom(s, i) == [Head(s, i)] + SplitFrom(s, ValueEnd(s, i) + 1)
  {
  }

  /** Inserting the pairs from start on is inserting the pair at start, then the pairs after it. */
  lemma InsertRound(m: map<string, string>, s: string, start: nat)
    requires start < |s|
    ensures InsertAll(m, SplitFrom(s, start)) == InsertAll(Insert(m, Head(s, start)), SplitFrom(s, ValueEnd(s, start) + 1))
  {
    SplitFromStep(s, start);
    InsertAllCons(m, Head(s, start), SplitFrom(s, ValueEnd(s, start) + 1));
  }

  /** The key loop: the characters from i up to the next '=' or the end. */
  method ScanKey(req: string, i: nat) returns (key: string, j: nat)
    requires i < |req|
    ensures j == Find(req, i, '=') && key == req[i..j]
  {
    key := "";
    j := i;
    while j < |req| && req[j] != '='
      invariant i <= j <= |req|
      invariant key == req[i..j]
      invariant forall l :: i <= l < j ==> req[l] != '='
    {
      key := key + [req[j]];
      j := j + 1;
    }
    FindUnique(req, i, '=', j);
  }

  /** The value loop: the characters from i up to the next '&' or the end; nothing once i is past the end. */
  method ScanValue(req: string, i: nat) returns (value: string, j: nat)
    ensures j == Find(req, i, '&') && value == if i <= |req| then req[i..j] else []
  {
    value := "";
    j := i;
    while j < |req| && req[j] != '&'
      invariant i <= j && (j <= |req| || j == i)
      invariant value == if i <= |req| then req[i..j] else []
      invariant forall l :: i <= l < j ==> req[l] != '&'
    {
      value := value + [req[j]];
      j := j + 1;
    }
    FindUnique(req, i, '&', j);
  }

  // ---------------------------------------------------------------------------
  // Properties of the split

  /** An empty query gives no pairs. */
  lemma EmptyQuery()
    ensures Split("") == [] && QueryMap("") == map[]
  {
  }

  /** A key without '=' and a value without '&'. */
  predicate Separated(p: Pair)
  {
    '=' !in p.key && '&' !in p.value
  }

  /** The pair at i holds no separator of its own. */
  lemma HeadSeparated(s: string, i: nat)
    requires i < |s|
    ensures Separated(Head(s, i))
  {
    var k := KeyEnd(s, i);
    var p := Head(s, i);
    FindFacts(s, i, '=');
    FindFacts(s, k + 1, '&');
    forall l | 0 <= l < |p.key| ensures p.key[l] != '=' {
      assert p.key[l] == s[i + l];
    }
    forall l | 0 <= l < |p.value| ensures p.value[l] != '&' {
      assert p.value[l] == s[k + 1 + l];
    }
  }

  /** No key contains '=' and no value contains '&'. */
  lemma {:induction false} PairsSeparated(s: string, i: nat)
    ensures forall n :: 0 <= n < |SplitFrom(s, i)| ==> Separated(SplitFrom(s, i)[n])
    decreases |s| - i
  {
    if i < |s| {
      var tail := SplitFrom(s, ValueEnd(s, i) + 1);
      HeadSeparated(s, i);
      PairsSeparated(s, ValueEnd(s, i) + 1);
      SplitFromStep(s, i);
      var ps := SplitFrom(s, i);
      forall n | 0 <= n < |ps| ensures Separated(ps[n]) {
        if n > 0 {
          assert ps[n] == tail[n - 1];
        }
      }
    }
  }

  /** A segment with no '=' after it is one key, the rest of the query, with an empty value. */
  lemma NoEqualsIsOneKey(s: string, i: nat)
    requires i < |s| && forall l :: i <= l < |s| ==> s[l] != '='
    ensures SplitFrom(s, i) == [Pair(s[i..], "")]
  {
    FindUnique(s, i, '=', |s|);
    SplitPairAt(s, i, Pair(s[i..], ""), |s| + 2);
  }

  /** At position i the text reads key, '=', value, then '&' or the end; key and value hold no separator. */
  predicate PairAt(s: string, i: nat, key: string, value: string)
  {
    '=' !in key && '&' !in value && i + |key| + 1 + |value| <= |s| &&
    s[i..i + |key|] == key && s[i + |key|] == '=' && s[i + |key| + 1..i + |key| + 1 + |value|] == value &&
    (i + |key| + 1 + |value| < |s| ==> s[i + |key| + 1 + |value|] == '&')
  }

  /** Such a pair is the pair at i, and it ends where its text ends. */
  lemma HeadAt(s: string, i: nat, key: string, value: string)
    requires PairAt(s, i, key, value)
    ensures i < |s| && Head(s, i) == Pair(key, value) && ValueEnd(s, i) == i + |key| + 1 + |value|
  {
    var k := i + |key|;
    forall l | i <= l < k ensures s[l] != '=' {
      assert s[l] == s[i..k][l - i];
    }
    FindUnique(s, i, '=', k);
    var v := k + 1 + |value|;
    forall l | k + 1 <= l < v ensures s[l] != '&' {
      assert s[l] == s[k + 1..v][l - k - 1];
    }
    FindUnique(s, k + 1, '&', v);
  }

  /** A pair whose value ends just before next splits off, and the split goes on at next. */
  lemma SplitPairAt(s: string, i: nat, p: Pair, next: nat)
    requires i < |s| && Head(s, i) == p && ValueEnd(s, i) + 1 == next
    ensures SplitFrom(s, i) == [p] + SplitFrom(s, next)
  {
    SplitFromStep(s, i);
  }

  /** A pair written between a prefix and either nothing or an '&'. */
  lemma PairInText(s: string, pre: string, key: string, value: string, post: string, at: nat)
    requires s == pre + (key + "=" + value) + post && at == |pre|
    requires '=' !in key && '&' !in value && (post == [] || post[0] == '&')
    ensures PairAt(s, at, key, value)
  {
    assert s == pre + key + ("=" + value + post);
    assert s[|pre|..|pre| + |key|] == key;
    assert s == (pre + key + "=") + value + post;
    assert s[|pre| + |key| + 1..|pre| + |key| + 1 + |value|] == value;
  }

  /** The text "k1=v1&k2=v2" holds its two pairs where they are written. */
  lemma TwoPairsText(s: string, k1: string, v1: string, k2: string, v2: string)
    requires s == k1 + "=" + v1 + "&" + k2 + "=" + v2
    requires '=' !in k1 && '=' !in k2 && '&' !in v1 && '&' !in v2
    ensures PairAt(s, 0, k1, v1) && PairAt(s, |k1| + 1 + |v1| + 1, k2, v2)
    ensures |s| == |k1| + 1 + |v1| + 1 + |k2| + 1 + |v2|
  {
    var a, b := k1 + "=" + v1, k2 + "=" + v2;
    AppendAssoc(a + "&", k2, "=");
    AppendAssoc(a + "&", k2 + "=", v2);
    AppendAssoc(a, "&", b);
    assert s == [] + a + ("&" + b);
    PairInText(s, [], k1, v1, "&" + b, 0);
    assert s == (a + "&") + b + [];
    PairInText(s, a + "&", k2, v2, [], |k1| + 1 + |v1| + 1);
  }

  /** Where the two pairs of "k1=v1&k2=v2" start and end. */
  lemma TwoPairsHeads(s: string, k1: string, v1: string, k2: string, v2: string)
    requires s == k1 + "=" + v1 + "&" + k2 + "=" + v2
    requires '=' !in k1 && '=' !in k2 && '&' !in v1 && '&' !in v2
    ensures var j := |k1| + 1 + |v1| + 1;
      j < |s| && Head(s, 0) == Pair(k1, v1) && ValueEnd(s, 0) == j - 1 &&
      Head(s, j) == Pair(k2, v2) && ValueEnd(s, j) == |s|
  {
    TwoPairsText(s, k1, v1, k2, v2);
    HeadAt(s, 0, k1, v1);
    HeadAt(s, |k1| + 1 + |v1| + 1, k2, v2);
  }

  /** A text whose two pairs end where it ends splits into exactly those. */
  lemma TwoPairsSplit(s: string, j: nat, p1: Pair, p2: Pair)
    requires 0 < j < |s| && Head(s, 0) == p1 && ValueEnd(s, 0) == j - 1
    requires Head(s, j) == p2 && ValueEnd(s, j) == |s|
    ensures Split(s) == [p1, p2]
  {
    SplitPairAt(s, 0, p1, j);
    SplitPairAt(s, j, p2, |s| + 1);
    var tail := SplitFrom(s, |s| + 1);
    assert tail == [];
    var second := SplitFrom(s, j);
    assert second == [p2] + tail;
    assert SplitFrom(s, 0) == [p1] + second;
  }

  /** "k1=v1&k2=v2" gives exactly the entries k1:v1 and k2:v2. */
  lemma TwoPairs(k1: string, v1: string, k2: string, v2: string)
    requires '=' !in k1 && '=' !in k2 && '&' !in v1 && '&' !in v2 && k1 != k2
    ensures QueryMap(k1 + "=" + v1 + "&" + k2 + "=" + v2) == map[k1 := v1, k2 := v2]
  {
    var s := k1 + "=" + v1 + "&" + k2 + "=" + v2;
    TwoPairsHeads(s, k1, v1, k2, v2);
    TwoPairsSplit(s, |k1| + 1 + |v1| + 1, Pair(k1, v1), Pair(k2, v2));
    InsertAllCons(map[], Pair(k1, v1), [Pair(k2, v2)]);
    InsertAllCons(map[k1 := v1], Pair(k2, v2), []);
  }

  // ---------------------------------------------------------------------------
  // Properties of the insertion

  /** The first pair in ps with key k, if any. */
  function FirstWith(ps: seq<Pair>, k: string): (i: nat)
    ensures i <= |ps|
    ensures forall j :: 0 <= j < i ==> ps[j].key != k
    ensures i < |ps| ==> ps[i].key == k
  {
    if ps == [] then 0
    else if ps[0].key == k then 0
    else 1 + FirstWith(ps[1..], k)
  }

  /**
   * Insertion keeps what was there and adds, for a new key, the value of
   * its first pair: the first value wins.
   */
  lemma {:induction false} InsertAllFirstWins(m: map<string, string>, ps: seq<Pair>, k: string)
    ensures k in InsertAll(m, ps) <==> k in m || FirstWith(ps, k) < |ps|
    ensures k in m ==> InsertAll(m, ps)[k] == m[k]
    ensures k !in m && FirstWith(ps, k) < |ps| ==> InsertAll(m, ps)[k] == ps[FirstWith(ps, k)].value
    decreases |ps|
  {
    if ps != [] {
      var m' := Insert(m, ps[0]);
      InsertAllFirstWins(m', ps[1..], k);
      if ps[0].key != k {
        assert FirstWith(ps, k) == 1 + FirstWith(ps[1..], k);
      }
    }
  }

  /** A parameter read from a query is the value of the key's first pair, or empty when the key never occurs. */
  lemma ParamIsFirstValue(query: string, k: string)
    ensures var ps := Split(query); var i := FirstWith(ps, k);
      GetReqParam(QueryMap(query), k) == if i < |ps| then ps[i].value else ""
  {
    InsertAllFirstWins(map[], Split(query), k);
  }
}
