/** The disk format of src/addrman.h: what the writer puts down, how the reader
    rebuilds all tables from it, and the proof that reading back a consistent
    manager gives the same manager under new ids. */
module AddrDisk {
  import opened AddrTables
  import opened AddrOps
  import opened AddrRuns
  import opened Arith

  // ---------------------------------------------------------------- the format

  /** The part of an entry that is written; the rest lives in memory only. */
  datatype Record = Record(addr: Service, services: set<nat>, time: nat, source: Ip, lastSuccess: int, attempts: int)

  datatype Image = Image(nNew: int, nTried: int, nUBuckets: nat, newInfos: seq<Record>, triedInfos: seq<Record>,
                         buckets: seq<seq<int>>)

  function ToRecord(i: Info): Record {
    Record(i.addr, i.services, i.time, i.source, i.lastSuccess, i.attempts)
  }

  function FromRecord(r: Record): Info {
    Info(r.addr, r.services, r.time, r.source, r.lastSuccess, 0, r.attempts, 0, false, -1)
  }

  /** What mapInfo[...] makes up for an id it does not hold. */
  function Blank(): Info {
    Info(Service(0, 0), {}, 0, 0, 0, 0, 0, 0, false, -1)
  }

  // ---------------------------------------------------------------- ascending order

  ghost predicate IsLeast(s: set<int>, m: int) {
    m in s && forall x :: x in s ==> m <= x
  }

  lemma {:induction false} HasLeast(s: set<int>)
    requires s != {}
    ensures exists m :: IsLeast(s, m)
    decreases |s|
  {
    HasMember(s);
    var x :| x in s;
    if s - {x} != {} {
      HasLeast(s - {x});
      var m :| IsLeast(s - {x}, m);
      var least := if m < x then m else x;
      forall y | y in s ensures least <= y {
        assert y == x || y in s - {x};
      }
      assert IsLeast(s, least);
    } else {
      assert forall y :: y in s ==> y == x || y in s - {x};
      assert IsLeast(s, x);
    }
  }

  ghost function Ascending(s: set<int>): (r: seq<int>)
    ensures |r| == |s|
    decreases |s|
  {
    if s == {} then []
    else
      HasLeast(s);
      var m :| IsLeast(s, m);
      [m] + Ascending(s - {m})
  }

  /** The sequence lists the members of the set in ascending order. */
  ghost predicate Lists(r: seq<int>, s: set<int>) {
    && (forall k :: 0 <= k < |r| ==> r[k] in s)
    && (forall x :: x in s ==> exists k :: 0 <= k < |r| && r[k] == x)
    && (forall i, j :: 0 <= i < j < |r| ==> r[i] < r[j])
  }

  lemma ListsCons(r: seq<int>, s: set<int>, m: int)
    requires IsLeast(s, m) && Lists(r, s - {m})
    ensures Lists([m] + r, s)
  {
    var q := [m] + r;
    forall x | x in s ensures exists k :: 0 <= k < |q| && q[k] == x {
      if x == m {
        assert q[0] == x;
      } else {
        assert x in s - {m};
        var k :| 0 <= k < |r| && r[k] == x;
        assert q[k + 1] == x;
      }
    }
  }

  lemma {:induction false} AscendingLists(s: set<int>)
    ensures Lists(Ascending(s), s)
    decreases |s|
  {
    if s != {} {
      HasLeast(s);
      var m := Ascending(s)[0];
      assert Ascending(s) == [m] + Ascending(s - {m}) && IsLeast(s, m);
      AscendingLists(s - {m});
      ListsCons(Ascending(s - {m}), s, m);
    }
  }

  /** There is only one such sequence. */
  lemma {:induction false} ListsUnique(r: seq<int>, q: seq<int>, s: set<int>)
    requires Lists(r, s) && Lists(q, s)
    ensures r == q
    decreases |r|
  {
    if s == {} {
      assert r == [] && q == [];
    } else {
      HasMember(s);
      assert r[0] == q[0];
      ListsTail(r, s);
      ListsTail(q, s);
      ListsUnique(r[1..], q[1..], s - {r[0]});
    }
  }

  lemma ListsTail(r: seq<int>, s: set<int>)
    requires Lists(r, s) && r != []
    ensures Lists(r[1..], s - {r[0]})
  {
    forall x | x in s - {r[0]} ensures exists k :: 0 <= k < |r[1..]| && r[1..][k] == x {
      var k :| 0 <= k < |r| && r[k] == x;
      assert r[1..][k - 1] == x;
    }
  }

  lemma ListsSnoc(r: seq<int>, s: set<int>, x: int)
    requires Lists(r, s) && forall y :: y in s ==> y < x
    ensures Lists(r + [x], s + {x})
  {
    var q := r + [x];
    forall y | y in s + {x} ensures exists k :: 0 <= k < |q| && q[k] == y {
      if y == x {
        assert q[|r|] == x;
      } else {
        var k :| 0 <= k < |r| && r[k] == y;
        assert q[k] == y;
      }
    }
  }

  /** Where an id comes in the ascending order of its set. */
  ghost function IndexOf(s: set<int>, x: int): (k: nat)
    requires x in s
    ensures k < |s| && Ascending(s)[k] == x
  {
    AscendingLists(s);
    var k :| 0 <= k < |s| && Ascending(s)[k] == x;
    k
  }

  lemma ListsInjective(r: seq<int>, s: set<int>, i: nat, j: nat)
    requires Lists(r, s) && i < |r| && j < |r| && r[i] == r[j]
    ensures i == j
  {
  }

  lemma IndexOfAt(s: set<int>, k: nat)
    requires k < |s|
    ensures Ascending(s)[k] in s && IndexOf(s, Ascending(s)[k]) == k
  {
    AscendingLists(s);
    ListsInjective(Ascending(s), s, IndexOf(s, Ascending(s)[k]), k);
  }

  // ---------------------------------------------------------------- what is written

  ghost predicate InMap(info: InfoMap, ids: seq<int>) {
    forall k :: 0 <= k < |ids| ==> ids[k] in info
  }

  function Records(info: InfoMap, ids: seq<int>): (r: seq<Record>)
    requires InMap(info, ids)
    ensures |r| == |ids|
    ensures forall k :: 0 <= k < |r| ==> r[k] == ToRecord(info[ids[k]])
  {
    seq(|ids|, k requires 0 <= k < |ids| => ToRecord(info[ids[k]]))
  }

  /** The new ids of the members of a bucket. */
  ghost function Indexes(ids: set<int>, bucket: set<int>): (r: seq<int>)
    requires bucket <= ids
    ensures |r| == |bucket|
  {
    AscendingLists(bucket);
    seq(|bucket|, k requires 0 <= k < |bucket| => IndexOf(ids, Ascending(bucket)[k]))
  }

  lemma IndexesAt(ids: set<int>, bucket: set<int>, k: nat)
    requires bucket <= ids && k < |bucket|
    ensures Ascending(bucket)[k] in bucket
    ensures Indexes(ids, bucket)[k] == IndexOf(ids, Ascending(bucket)[k])
  {
    hide Ascending, IndexOf;
    AscendingLists(bucket);
  }

  lemma BucketNew(t: Tables, env: Env, b: nat)
    requires Inv(t, env) && b < |t.news|
    ensures t.news[b] <= NewIds(t.info)
  {
    forall x | x in t.news[b] ensures x in NewIds(t.info) {
      NewMember(t.info, t.news, multiset{}, b, x);
    }
  }

  ghost function Written(t: Tables, env: Env): Image
    requires Inv(t, env)
  {
    AscendingLists(NewIds(t.info));
    AscendingLists(TriedIds(t.info));
    Image(t.nNew, t.nTried, NEW_BUCKET_COUNT,
          Records(t.info, Ascending(NewIds(t.info))), Records(t.info, Ascending(TriedIds(t.info))),
          AllIndexes(t, env, NEW_BUCKET_COUNT))
  }

  ghost function AllIndexes(t: Tables, env: Env, n: nat): (r: seq<seq<int>>)
    requires Inv(t, env) && n <= NEW_BUCKET_COUNT
    ensures |r| == n
    ensures forall b :: 0 <= b < n ==> t.news[b] <= NewIds(t.info) && r[b] == Indexes(NewIds(t.info), t.news[b])
  {
    if n == 0 then []
    else
      BucketNew(t, env, n - 1);
      AllIndexes(t, env, n - 1) + [Indexes(NewIds(t.info), t.news[n - 1])]
  }

  // ---------------------------------------------------------------- how it is read

  function LoadNew(t: Tables, env: Env, recs: seq<Record>, rebuild: bool): (t': Tables)
    ensures |t'.news| == |t.news| && |t'.tried| == |t.tried|
    requires |t.news| == NEW_BUCKET_COUNT
  {
    if recs == [] then t
    else
      var n := |recs| - 1;
      LoadOneNew(LoadNew(t, env, recs[..n], rebuild), env, n, recs[n], rebuild)
  }

  function LoadOneNew(t: Tables, env: Env, n: nat, r: Record, rebuild: bool): Tables
    requires |t.news| == NEW_BUCKET_COUNT
  {
    var i := FromRecord(r).(randomPos := |t.random|);
    var b := NewBucket(env, r.addr.ip, r.source);
    t.(info := t.info[n := if rebuild then i.(refCount := 1) else i], addr := t.addr[r.addr.ip := n],
       random := t.random + [n], news := if rebuild then t.news[b := t.news[b] + {n}] else t.news)
  }

  /** Tried entries go to the bucket of their address, or are lost if it is full. */
  function LoadTried(t: Tables, env: Env, recs: seq<Record>): (t': Tables)
    requires |t.tried| == TRIED_BUCKET_COUNT
    ensures |t'.tried| == |t.tried| && |t'.news| == |t.news|
    decreases |recs|
  {
    if recs == [] then t else LoadTried(LoadOneTried(t, env, recs[0]), env, recs[1..])
  }

  function LoadOneTried(t: Tables, env: Env, r: Record): Tables
    requires |t.tried| == TRIED_BUCKET_COUNT
  {
    var b := TriedBucket(env, r.addr);
    if |t.tried[b]| < TRIED_BUCKET_SIZE then
      t.(idCount := t.idCount + 1,
         info := t.info[t.idCount := FromRecord(r).(randomPos := |t.random|, inTried := true)],
         addr := t.addr[r.addr.ip := t.idCount], random := t.random + [t.idCount],
         tried := t.tried[b := t.tried[b] + [t.idCount]])
    else
      t
  }

  function LoadBucket(t: Tables, b: nat, indexes: seq<int>, use: bool): (t': Tables)
    requires b < |t.news|
    ensures |t'.news| == |t.news|
  {
    if indexes == [] then t
    else LoadRef(LoadBucket(t, b, indexes[..|indexes| - 1], use), b, indexes[|indexes| - 1], use)
  }

  function LoadRef(t: Tables, b: nat, k: int, use: bool): Tables
    requires b < |t.news|
  {
    var i := if k in t.info then t.info[k] else Blank();
    if use && i.refCount < NEW_BUCKETS_PER_ADDRESS then
      t.(info := t.info[k := i.(refCount := i.refCount + 1)], news := t.news[b := t.news[b] + {k}])
    else
      t.(info := t.info[k := i])
  }

  function LoadBuckets(t: Tables, buckets: seq<seq<int>>, use: bool): (t': Tables)
    requires |buckets| <= |t.news|
    ensures |t'.news| == |t.news|
  {
    if buckets == [] then t
    else
      var n := |buckets| - 1;
      LoadBucket(LoadBuckets(t, buckets[..n], use), n, buckets[n], use)
  }

  /** The image holds as much as its own counts announce. */
  predicate Complete(g: Image) {
    && |g.newInfos| == (if g.nNew < 0 then 0 else g.nNew)
    && |g.triedInfos| == (if g.nTried < 0 then 0 else g.nTried)
    && |g.buckets| == g.nUBuckets <= NEW_BUCKET_COUNT
  }

  function Loaded(env: Env, g: Image): Tables
    requires Complete(g)
  {
    var t0 := Empty().(nNew := g.nNew, nTried := g.nTried);
    var t1 := LoadNew(t0, env, g.newInfos, g.nUBuckets != NEW_BUCKET_COUNT);
    var t2 := LoadTried(t1.(idCount := g.nNew), env, g.triedInfos);
    var nLost := |g.triedInfos| - (t2.idCount - g.nNew);
    LoadBuckets(t2.(nTried := g.nTried - nLost), g.buckets, g.nUBuckets == NEW_BUCKET_COUNT)
  }

  // ---------------------------------------------------------------- the same under new ids

  function UpTo(n: nat): (r: seq<int>)
    ensures |r| == n && forall k :: 0 <= k < n ==> r[k] == k
  {
    seq(n, k => k)
  }

  /** `order[k]` is the old id of the entry with new id k. */
  ghost predicate IsOrder(info: InfoMap, order: seq<int>) {
    && |order| == |info|
    && (forall x :: x in info ==> exists k :: 0 <= k < |order| && order[k] == x)
    && (forall k :: 0 <= k < |order| ==> order[k] in info)
    && forall j, k :: 0 <= j < k < |order| ==> order[j] != order[k]
  }

  /** Everything is the same but the ids, positions, and the times of last
      tries, which are not written. */
  ghost predicate Renamed(t: Tables, t': Tables, order: seq<int>) {
    && IsOrder(t.info, order)
    && t' == t.(idCount := |order|, info := t'.info, addr := t'.addr, random := UpTo(|order|),
                tried := t'.tried, news := t'.news)
    && SameEntries(t.info, t'.info, order)
    && t'.addr.Keys == t.addr.Keys && ByAddress(t'.info, t'.addr)
    && SameNews(t.news, t'.news, order) && SameTried(t.tried, t'.tried, order)
  }

  ghost predicate SameEntries(info: InfoMap, info': InfoMap, order: seq<int>)
    requires IsOrder(info, order)
  {
    && (forall k :: k in info' <==> 0 <= k < |order|)
    && (forall k :: 0 <= k < |order| ==> info'[k] == info[order[k]].(lastTry := 0, randomPos := k))
  }

  ghost predicate ByAddress(info: InfoMap, addr: map<Ip, int>) {
    forall k :: k in info ==> info[k].addr.ip in addr && addr[info[k].addr.ip] == k
  }

  ghost predicate SameNews(news: seq<set<int>>, news': seq<set<int>>, order: seq<int>) {
    && |news'| == |news|
    && forall b :: 0 <= b < |news| ==> news'[b] == Preimage(order, news[b])
  }

  ghost predicate SameTried(tried: seq<seq<int>>, tried': seq<seq<int>>, order: seq<int>) {
    && |tried'| == |tried|
    && forall b, k {:trigger multiset(tried'[b])[k]} :: 0 <= b < |tried| ==>
         multiset(tried'[b])[k] == if 0 <= k < |order| then multiset(tried[b])[order[k]] else 0
  }

  ghost function Preimage(order: seq<int>, s: set<int>): set<int> {
    set k: int | 0 <= k < |order| && order[k] in s
  }

  lemma PreimageMinus(order: seq<int>, s: set<int>, k: int)
    requires 0 <= k < |order| && order[k] in s
    requires forall i, j :: 0 <= i < j < |order| ==> order[i] != order[j]
    ensures Preimage(order, s) == Preimage(order, s - {order[k]}) + {k}
    ensures k !in Preimage(order, s - {order[k]})
  {
    forall j ensures j in Preimage(order, s) <==> j in Preimage(order, s - {order[k]}) + {k} {
      if 0 <= j < |order| {
        assert order[j] == order[k] <==> j == k;
      }
    }
  }

  lemma {:induction false} PreimageSize(info: InfoMap, order: seq<int>, s: set<int>)
    requires IsOrder(info, order) && s <= info.Keys
    ensures |Preimage(order, s)| == |s|
    decreases |s|
  {
    if s == {} {
      assert Preimage(order, s) == {};
    } else {
      HasMember(s);
      var x :| x in s;
      assert x in info;
      var k :| 0 <= k < |order| && order[k] == x;
      PreimageSize(info, order, s - {x});
      PreimageMinus(order, s, k);
    }
  }

  lemma {:induction false} NewBagRenamed(news: seq<set<int>>, news': seq<set<int>>, order: seq<int>, k: int)
    requires SameNews(news, news', order)
    ensures NewBag(news')[k] == if 0 <= k < |order| then NewBag(news)[order[k]] else 0
  {
    if news != [] {
      var n := |news| - 1;
      NewBagRenamed(news[..n], news'[..n], order, k);
      assert k in news'[n] <==> 0 <= k < |order| && order[k] in news[n];
    }
  }

  lemma {:induction false} TriedBagRenamed(tried: seq<seq<int>>, tried': seq<seq<int>>, order: seq<int>, k: int)
    requires SameTried(tried, tried', order)
    ensures TriedBag(tried')[k] == if 0 <= k < |order| then TriedBag(tried)[order[k]] else 0
  {
    if tried != [] {
      var n := |tried| - 1;
      TriedBagRenamed(tried[..n], tried'[..n], order, k);
      assert multiset(tried'[n])[k] == if 0 <= k < |order| then multiset(tried[n])[order[k]] else 0;
    }
  }

  lemma RenamedBags(t: Tables, env: Env, t': Tables, order: seq<int>)
    requires Inv(t, env) && Renamed(t, t', order)
    ensures NewMatch(t'.info, NewBag(t'.news) + multiset{}) && TriedMatch(t'.info, TriedBag(t'.tried))
  {
    forall k
      ensures (NewBag(t'.news) + multiset{})[k] == NewRefs(t'.info, k)
      ensures TriedBag(t'.tried)[k] == TriedRefs(t'.info, k)
    {
      NewBagRenamed(t.news, t'.news, order, k);
      TriedBagRenamed(t.tried, t'.tried, order, k);
      if 0 <= k < |order| {
        assert (NewBag(t.news) + multiset{})[order[k]] == NewRefs(t.info, order[k]);
        assert TriedBag(t.tried)[order[k]] == TriedRefs(t.info, order[k]);
      }
    }
  }

  lemma RenamedCounts(t: Tables, t': Tables, order: seq<int>)
    requires Counts(t.info, t.nTried, t.nNew) && Renamed(t, t', order)
    ensures Counts(t'.info, t'.nTried, t'.nNew)
  {
    PreimageSize(t.info, order, TriedIds(t.info));
    PreimageSize(t.info, order, NewIds(t.info));
    assert TriedIds(t'.info) == Preimage(order, TriedIds(t.info));
    assert NewIds(t'.info) == Preimage(order, NewIds(t.info));
  }

  lemma SameTriedAt(tried: seq<seq<int>>, tried': seq<seq<int>>, order: seq<int>, b: nat, k: int)
    requires SameTried(tried, tried', order) && b < |tried| && k in tried'[b]
    ensures 0 <= k < |order| && order[k] in tried[b]
  {
    assert multiset(tried'[b])[k] > 0;
  }

  lemma RenamedPlaces(t: Tables, env: Env, t': Tables, order: seq<int>)
    requires Placed(env, t.info, t.tried) && Renamed(t, t', order)
    ensures Placed(env, t'.info, t'.tried)
  {
    forall b, i | 0 <= b < |t'.tried| && 0 <= i < |t'.tried[b]|
      ensures t'.tried[b][i] in t'.info && TriedBucket(env, t'.info[t'.tried[b][i]].addr) == b
    {
      var k := t'.tried[b][i];
      assert multiset(t'.tried[b])[k] > 0;
      SameTriedAt(t.tried, t'.tried, order, b, k);
      var j :| 0 <= j < |t.tried[b]| && t.tried[b][j] == order[k];
    }
  }

  lemma RenamedIndexes(t: Tables, t': Tables, order: seq<int>)
    requires AddrIndex(t.info, t.addr) && Renamed(t, t', order)
    ensures AddrIndex(t'.info, t'.addr) && RandomIndex(t'.info, t'.random)
  {
    forall ip | ip in t'.addr ensures t'.addr[ip] in t'.info && t'.info[t'.addr[ip]].addr.ip == ip {
      assert ip in t.addr && t.addr[ip] in t.info;
      var k :| 0 <= k < |order| && order[k] == t.addr[ip];
      assert t'.info[k].addr.ip == ip;
    }
  }

  lemma RenamedSizes(t: Tables, env: Env, t': Tables, order: seq<int>)
    requires Inv(t, env) && Renamed(t, t', order)
    ensures forall b :: 0 <= b < |t'.news| ==> |t'.news[b]| == |t.news[b]|
  {
    forall b | 0 <= b < |t'.news| ensures |t'.news[b]| == |t.news[b]| {
      BucketNew(t, env, b);
      PreimageSize(t.info, order, t.news[b]);
    }
  }

  lemma RenamedInv(t: Tables, env: Env, t': Tables, order: seq<int>)
    requires Inv(t, env) && Renamed(t, t', order)
    requires forall b :: 0 <= b < |t'.tried| ==> |t'.tried[b]| <= TRIED_BUCKET_SIZE
    ensures Inv(t', env)
  {
    RenamedBags(t, env, t', order);
    RenamedCounts(t, t', order);
    RenamedPlaces(t, env, t', order);
    RenamedIndexes(t, t', order);
    assert Sizes(t'.tried, t'.news) by { RenamedSizes(t, env, t', order); }
  }

  // ---------------------------------------------------------------- reading back: entries

  /** New entries first, then tried ones, each in ascending order of old id. */
  ghost function Order(info: InfoMap): seq<int> {
    Ascending(NewIds(info)) + Ascending(TriedIds(info))
  }

  lemma OrderMembers(info: InfoMap, k: nat)
    requires k < |Order(info)|
    ensures Order(info)[k] in info && (info[Order(info)[k]].inTried <==> k >= |NewIds(info)|)
  {
    AscendingLists(NewIds(info));
    AscendingLists(TriedIds(info));
  }

  lemma OrderReaches(info: InfoMap, x: int) returns (k: nat)
    requires x in info
    ensures k < |Order(info)| && Order(info)[k] == x
  {
    var a, b := NewIds(info), TriedIds(info);
    k := if info[x].inTried then |a| + IndexOf(b, x) else IndexOf(a, x);
  }

  lemma OrderDistinct(info: InfoMap, j: nat, k: nat)
    requires j < k < |Order(info)|
    ensures Order(info)[j] != Order(info)[k]
  {
    OrderMembers(info, j);
    OrderMembers(info, k);
    AscendingLists(NewIds(info));
    AscendingLists(TriedIds(info));
  }

  lemma OrderOk(info: InfoMap)
    ensures IsOrder(info, Order(info))
  {
    var order := Order(info);
    assert |order| == |info| by {
      assert info.Keys == NewIds(info) + TriedIds(info);
    }
    forall k | 0 <= k < |order| ensures order[k] in info {
      OrderMembers(info, k);
    }
    forall x | x in info ensures exists k :: 0 <= k < |order| && order[k] == x {
      var k := OrderReaches(info, x);
    }
    forall j, k | 0 <= j < k < |order| ensures order[j] != order[k] {
      OrderDistinct(info, j, k);
    }
  }

  /** The first n of `all` have been loaded, those from nNew on as tried. */
  ghost predicate Filled(t: Tables, all: seq<Record>, n: nat, nNew: nat) {
    && n <= |all| && t.random == UpTo(n)
    && (forall k :: k in t.info <==> 0 <= k < n)
    && (forall k :: 0 <= k < n ==> t.info[k] == FromRecord(all[k]).(randomPos := k, inTried := k >= nNew))
    && (forall ip :: ip in t.addr ==> 0 <= t.addr[ip] < n && all[t.addr[ip]].addr.ip == ip)
    && ByAddress(t.info, t.addr)
  }

  ghost predicate DistinctIps(all: seq<Record>) {
    forall j, k :: 0 <= j < k < |all| ==> all[j].addr.ip != all[k].addr.ip
  }

  lemma FilledOne(t: Tables, t': Tables, all: seq<Record>, n: nat, nNew: nat)
    requires Filled(t, all, n, nNew) && DistinctIps(all) && n < |all|
    requires t'.info == t.info[n := FromRecord(all[n]).(randomPos := |t.random|, inTried := n >= nNew)]
    requires t'.addr == t.addr[all[n].addr.ip := n] && t'.random == t.random + [n]
    ensures Filled(t', all, n + 1, nNew)
  {
  }

  lemma NothingFilled(t: Tables, all: seq<Record>, nNew: nat)
    requires t.info == map[] && t.addr == map[] && t.random == []
    ensures Filled(t, all, 0, nNew)
  {
  }

  lemma {:induction false} LoadNewFills(t0: Tables, env: Env, all: seq<Record>, n: nat, nNew: nat)
    requires |t0.news| == NEW_BUCKET_COUNT && t0.info == map[] && t0.addr == map[] && t0.random == []
    requires DistinctIps(all) && n <= nNew <= |all|
    ensures var t := LoadNew(t0, env, all[..n], false);
      Filled(t, all, n, nNew) && t == t0.(info := t.info, addr := t.addr, random := t.random)
  {
    hide Filled, DistinctIps;
    if n == 0 {
      NothingFilled(LoadNew(t0, env, [], false), all, nNew);
    } else {
      LoadNewFills(t0, env, all, n - 1, nNew);
      assert all[..n][..n - 1] == all[..n - 1];
      FilledOne(LoadNew(t0, env, all[..n - 1], false), LoadNew(t0, env, all[..n], false), all, n - 1, nNew);
    }
  }

  /** Tried bucket b holds exactly the loaded entries that hash to it. */
  ghost predicate TriedPart(env: Env, bucket: seq<int>, b: nat, all: seq<Record>, n: nat, nNew: nat)
    requires n <= |all|
  {
    && |bucket| <= TRIED_BUCKET_SIZE
    && forall k :: multiset(bucket)[k] == if nNew <= k < n && TriedBucket(env, all[k].addr) == b then 1 else 0
  }

  /** All records of the old manager, in the new order. */
  ghost predicate RecordsOf(t: Tables, all: seq<Record>) {
    && |all| == |Order(t.info)|
    && forall k :: 0 <= k < |all| ==>
         Order(t.info)[k] in t.info && all[k] == ToRecord(t.info[Order(t.info)[k]])
  }

  lemma PlacedAt(env: Env, info: InfoMap, tried: seq<seq<int>>, b: nat, x: int)
    requires Placed(env, info, tried) && b < |tried| && x in tried[b]
    ensures x in info && TriedBucket(env, info[x].addr) == b
  {
    var i :| 0 <= i < |tried[b]| && tried[b][i] == x;
  }

  /** An entry of the tried table is in the bucket of its address, once. */
  lemma TriedHome(t: Tables, env: Env, x: int, b: nat)
    requires Inv(t, env) && x in t.info && b < |t.tried|
    ensures multiset(t.tried[b])[x] == if t.info[x].inTried && TriedBucket(env, t.info[x].addr) == b then 1 else 0
  {
    assert TriedBag(t.tried)[x] == TriedRefs(t.info, x);
    TriedBagUpdate(t.tried, b, []);
    if x in t.tried[b] {
      var i :| 0 <= i < |t.tried[b]| && t.tried[b][i] == x;
      TriedMember(t.info, t.tried, b, i);
    } else if t.info[x].inTried && TriedBucket(env, t.info[x].addr) == b {
      var c := TriedBagHolder(t.tried, x);
      PlacedAt(env, t.info, t.tried, c, x);
      assert false;
    }
  }

  lemma {:induction false} TriedBagHolder(tried: seq<seq<int>>, x: int) returns (b: nat)
    requires x in TriedBag(tried)
    ensures b < |tried| && x in tried[b]
  {
    var n := |tried| - 1;
    if x in tried[n] {
      b := n;
    } else {
      b := TriedBagHolder(tried[..n], x);
    }
  }

  /** The new ids of the entries of one old tried bucket. */
  ghost function Housed(t: Tables, b: nat): set<int>
    requires b < |t.tried|
  {
    Preimage(Order(t.info), set x | x in t.tried[b])
  }

  lemma HousedSize(t: Tables, env: Env, b: nat)
    requires Inv(t, env) && b < |t.tried|
    ensures |Housed(t, b)| <= TRIED_BUCKET_SIZE
  {
    var home := set x | x in t.tried[b];
    OrderOk(t.info);
    forall x | x in home ensures x in t.info {
      PlacedAt(env, t.info, t.tried, b, x);
    }
    PreimageSize(t.info, Order(t.info), home);
    SetOfSeq(t.tried[b]);
  }

  lemma InHoused(t: Tables, env: Env, all: seq<Record>, b: nat, k: nat)
    requires Inv(t, env) && RecordsOf(t, all) && |NewIds(t.info)| <= k < |all| && b < |t.tried|
    requires TriedBucket(env, all[k].addr) == b
    ensures k in Housed(t, b)
  {
    OrderMembers(t.info, k);
    TriedHome(t, env, Order(t.info)[k], b);
    assert Order(t.info)[k] in t.tried[b];
  }

  /** No bucket overflows while reading: what is in it so far and the next
      entry were together in one bucket before. */
  lemma RoomForNext(t: Tables, env: Env, all: seq<Record>, n: nat, bucket: seq<int>)
    requires Inv(t, env) && RecordsOf(t, all) && |NewIds(t.info)| <= n < |all|
    requires TriedPart(env, bucket, TriedBucket(env, all[n].addr), all, n, |NewIds(t.info)|)
    ensures |bucket| < TRIED_BUCKET_SIZE
  {
    var b := TriedBucket(env, all[n].addr);
    var p := multiset(Housed(t, b));
    HousedSize(t, env, b);
    forall k ensures (multiset(bucket) + multiset{n})[k] <= p[k] {
      if |NewIds(t.info)| <= k <= n && TriedBucket(env, all[k].addr) == b {
        InHoused(t, env, all, b, k);
      }
    }
    assert p == multiset(bucket) + multiset{n} + (p - (multiset(bucket) + multiset{n}));
    assert |p| == |Housed(t, b)| && |multiset(bucket) + multiset{n}| == |bucket| + 1;
  }

  lemma {:induction false} SetOfSeq(s: seq<int>)
    ensures |set x | x in s| <= |s|
  {
    if s != [] {
      var n := |s| - 1;
      SetOfSeq(s[..n]);
      assert (set x | x in s) == (set x | x in s[..n]) + {s[n]};
    }
  }

  ghost predicate TriedLoaded(t1: Tables, cur: Tables, env: Env, all: seq<Record>, n: nat, nNew: nat) {
    && nNew <= n && Filled(cur, all, n, nNew)
    && cur == t1.(idCount := n, info := cur.info, addr := cur.addr, random := cur.random, tried := cur.tried)
    && |cur.tried| == TRIED_BUCKET_COUNT
    && forall b :: 0 <= b < |cur.tried| ==> TriedPart(env, cur.tried[b], b, all, n, nNew)
  }

  /** Whatever part of the tried entries is loaded, the next one fits. */
  ghost predicate Roomy(env: Env, all: seq<Record>, nNew: nat) {
    forall n, bucket :: nNew <= n < |all| && TriedPart(env, bucket, TriedBucket(env, all[n].addr), all, n, nNew) ==>
      |bucket| < TRIED_BUCKET_SIZE
  }

  lemma InvRoomy(t: Tables, env: Env, all: seq<Record>)
    requires Inv(t, env) && RecordsOf(t, all)
    ensures Roomy(env, all, |NewIds(t.info)|)
  {
    var nNew := |NewIds(t.info)|;
    forall n, bucket | nNew <= n < |all| && TriedPart(env, bucket, TriedBucket(env, all[n].addr), all, n, nNew)
      ensures |bucket| < TRIED_BUCKET_SIZE
    {
      RoomForNext(t, env, all, n, bucket);
    }
  }

  lemma TriedLoadedStep(t1: Tables, cur: Tables, env: Env, all: seq<Record>, n: nat, nNew: nat)
    requires Roomy(env, all, nNew) && DistinctIps(all) && n < |all|
    requires TriedLoaded(t1, cur, env, all, n, nNew)
    ensures TriedLoaded(t1, LoadOneTried(cur, env, all[n]), env, all, n + 1, nNew)
  {
    assert TriedPart(env, cur.tried[TriedBucket(env, all[n].addr)], TriedBucket(env, all[n].addr), all, n, nNew);
    FilledOne(cur, LoadOneTried(cur, env, all[n]), all, n, nNew);
    TriedPartStep(cur, env, all, n, nNew);
  }

  lemma {:induction false} LoadTriedFills(t1: Tables, cur: Tables, env: Env, all: seq<Record>, nNew: nat, n: nat)
    requires Roomy(env, all, nNew) && DistinctIps(all) && n <= |all|
    requires TriedLoaded(t1, cur, env, all, n, nNew)
    ensures TriedLoaded(t1, LoadTried(cur, env, all[n..]), env, all, |all|, nNew)
    decreases |all| - n
  {
    if n < |all| {
      assert all[n..][1..] == all[n + 1..];
      TriedLoadedStep(t1, cur, env, all, n, nNew);
      LoadTriedFills(t1, LoadOneTried(cur, env, all[n]), env, all, nNew, n + 1);
    }
  }

  lemma TriedPartStep(last: Tables, env: Env, all: seq<Record>, n: nat, nNew: nat)
    requires n < |all| && last.idCount == n >= nNew && |last.tried| == TRIED_BUCKET_COUNT
    requires forall b :: 0 <= b < |last.tried| ==> TriedPart(env, last.tried[b], b, all, n, nNew)
    requires |last.tried[TriedBucket(env, all[n].addr)]| < TRIED_BUCKET_SIZE
    ensures var cur := LoadOneTried(last, env, all[n]);
      forall b :: 0 <= b < |cur.tried| ==> TriedPart(env, cur.tried[b], b, all, n + 1, nNew)
  {
    var cur := LoadOneTried(last, env, all[n]);
    forall b | 0 <= b < |cur.tried| ensures TriedPart(env, cur.tried[b], b, all, n + 1, nNew) {
      assert TriedPart(env, last.tried[b], b, all, n, nNew);
    }
  }

  // ---------------------------------------------------------------- reading back: references

  /** The reference counts are those of the new buckets as far as loaded, and
      nothing is in a bucket that was not there before. */
  ghost predicate Referring(t: Tables, t2: Tables, cur: Tables) {
    && cur == t2.(info := cur.info, news := cur.news)
    && cur.info.Keys == t2.info.Keys && |cur.news| == |t.news|
    && (forall k :: k in cur.info ==> cur.info[k] == t2.info[k].(refCount := NewBag(cur.news)[k]))
    && Within(t.news, cur.news, Order(t.info))
  }

  ghost predicate Within(news: seq<set<int>>, cur: seq<set<int>>, order: seq<int>) {
    |cur| == |news| && forall b :: 0 <= b < |cur| ==> cur[b] <= Preimage(order, news[b])
  }

  lemma {:induction false} BagBelow(news: seq<set<int>>, cur: seq<set<int>>, order: seq<int>, k: nat, b: nat)
    requires Within(news, cur, order) && k < |order|
    ensures NewBag(cur)[k] <= NewBag(news)[order[k]]
    ensures b < |cur| && k !in cur[b] && order[k] in news[b] ==> NewBag(cur)[k] < NewBag(news)[order[k]]
  {
    if cur != [] {
      var n := |cur| - 1;
      BagBelow(news[..n], cur[..n], order, k, b);
      assert k in cur[n] ==> order[k] in news[n];
    }
  }

  ghost predicate FewRefs(news: seq<set<int>>) {
    forall x :: NewBag(news)[x] <= NEW_BUCKETS_PER_ADDRESS
  }

  lemma InvFewRefs(t: Tables, env: Env)
    requires Inv(t, env)
    ensures FewRefs(t.news)
  {
    forall x ensures NewBag(t.news)[x] <= NEW_BUCKETS_PER_ADDRESS {
      assert (NewBag(t.news) + multiset{})[x] == NewRefs(t.info, x);
    }
  }

  lemma NewBagPlus(news: seq<set<int>>, b: nat, k: int)
    requires b < |news| && k !in news[b]
    ensures NewBag(news[b := news[b] + {k}]) == NewBag(news) + multiset{k}
  {
    NewBagUpdate(news, b, news[b] + {k});
    assert multiset(news[b] + {k}) == multiset(news[b]) + multiset{k};
  }

  lemma LoadRefStep(t: Tables, t2: Tables, cur: Tables, b: nat, x: int)
    requires FewRefs(t.news) && Referring(t, t2, cur) && b < |t.news| && x in t.news[b]
    requires x in NewIds(t.info) && IndexOf(NewIds(t.info), x) in cur.info
    requires IndexOf(NewIds(t.info), x) !in cur.news[b]
    ensures var k := IndexOf(NewIds(t.info), x);
      var t' := LoadRef(cur, b, k, true);
      Referring(t, t2, t') && t'.news == cur.news[b := cur.news[b] + {k}]
  {
    var k := IndexOf(NewIds(t.info), x);
    BagBelow(t.news, cur.news, Order(t.info), k, b);
    NewBagPlus(cur.news, b, k);
  }

  ghost function Members(s: seq<int>): set<int> { set x | x in s }

  lemma MembersSnoc(s: seq<int>, m: nat)
    requires m < |s|
    ensures Members(s[..m + 1]) == Members(s[..m]) + {s[m]}
  {
    assert s[..m + 1] == s[..m] + [s[m]];
  }

  lemma IndexesDistinct(ids: set<int>, bucket: set<int>, m: nat)
    requires bucket <= ids && m < |bucket|
    ensures Indexes(ids, bucket)[m] !in Members(Indexes(ids, bucket)[..m])
  {
    var idx := Indexes(ids, bucket);
    AscendingLists(bucket);
    IndexesAt(ids, bucket, m);
    forall i | 0 <= i < m ensures idx[i] != idx[m] {
      IndexesAt(ids, bucket, i);
      assert Ascending(bucket)[i] < Ascending(bucket)[m];
    }
  }

  /** The indexes written for a bucket are the new ids of its members. */
  lemma IndexesArePreimage(t: Tables, b: nat)
    requires b < |t.news| && t.news[b] <= NewIds(t.info)
    ensures Members(Indexes(NewIds(t.info), t.news[b])) == Preimage(Order(t.info), t.news[b])
  {
    var ids, bucket, order := NewIds(t.info), t.news[b], Order(t.info);
    var idx, a := Indexes(ids, bucket), Ascending(bucket);
    AscendingLists(bucket);
    forall k ensures k in Members(idx) <==> k in Preimage(order, bucket) {
      if k in Members(idx) {
        var i :| 0 <= i < |idx| && idx[i] == k;
        IndexesAt(ids, bucket, i);
        assert order[k] == a[i];
      }
      if k in Preimage(order, bucket) {
        OrderMembers(t.info, k);
        var i :| 0 <= i < |a| && a[i] == order[k];
        IndexesAt(ids, bucket, i);
        IndexOfAt(ids, k);
      }
    }
  }

  lemma LoadBucketLast(t: Tables, b: nat, idx: seq<int>, m: nat)
    requires b < |t.news| && m < |idx|
    ensures LoadBucket(t, b, idx[..m + 1], true) == LoadRef(LoadBucket(t, b, idx[..m], true), b, idx[m], true)
  {
    assert idx[..m + 1][..m] == idx[..m];
  }

  /** Bucket b, empty in cur0, has been given the first m of its indexes. */
  ghost predicate BucketPart(cur0: Tables, cur: Tables, b: nat, idx: seq<int>, m: nat)
    requires b < |cur0.news| && m <= |idx|
  {
    cur.news == cur0.news[b := Members(idx[..m])]
  }

  lemma BucketPartStep(cur0: Tables, prev: Tables, cur: Tables, b: nat, idx: seq<int>, m: nat)
    requires b < |cur0.news| && m < |idx| && BucketPart(cur0, prev, b, idx, m)
    requires cur.news == prev.news[b := prev.news[b] + {idx[m]}]
    ensures BucketPart(cur0, cur, b, idx, m + 1)
  {
    MembersSnoc(idx, m);
  }

  lemma BucketPartStart(cur0: Tables, b: nat, idx: seq<int>)
    requires b < |cur0.news| && cur0.news[b] == {}
    ensures BucketPart(cur0, cur0, b, idx, 0)
  {
    assert Members(idx[..0]) == {};
  }

  lemma LoadBucketStep(t: Tables, t2: Tables, cur: Tables, prev: Tables, b: nat, m: nat)
    requires FewRefs(t.news) && Referring(t, t2, prev) && b < |t.news| == |cur.news|
    requires t.news[b] <= NewIds(t.info) && m < |t.news[b]|
    requires forall k :: 0 <= k < |NewIds(t.info)| ==> k in t2.info
    requires BucketPart(cur, prev, b, Indexes(NewIds(t.info), t.news[b]), m)
    ensures var idx := Indexes(NewIds(t.info), t.news[b]);
      var next := LoadRef(prev, b, idx[m], true);
      Referring(t, t2, next) && BucketPart(cur, next, b, idx, m + 1)
  {
    var idx := Indexes(NewIds(t.info), t.news[b]);
    var x := Ascending(t.news[b])[m];
    IndexesAt(NewIds(t.info), t.news[b], m);
    IndexesDistinct(NewIds(t.info), t.news[b], m);
    LoadRefStep(t, t2, prev, b, x);
    BucketPartStep(cur, prev, LoadRef(prev, b, idx[m], true), b, idx, m);
  }

  lemma {:induction false} LoadBucketRefs(t: Tables, t2: Tables, cur: Tables, b: nat, m: nat)
    requires FewRefs(t.news) && Referring(t, t2, cur) && b < |t.news| && cur.news[b] == {}
    requires t.news[b] <= NewIds(t.info) && m <= |t.news[b]|
    requires forall k :: 0 <= k < |NewIds(t.info)| ==> k in t2.info
    ensures var idx := Indexes(NewIds(t.info), t.news[b]);
      var cur' := LoadBucket(cur, b, idx[..m], true);
      Referring(t, t2, cur') && BucketPart(cur, cur', b, idx, m)
    decreases m
  {
    var idx := Indexes(NewIds(t.info), t.news[b]);
    if m == 0 {
      BucketPartStart(cur, b, idx);
    } else {
      LoadBucketRefs(t, t2, cur, b, m - 1);
      LoadBucketLast(cur, b, idx, m - 1);
      LoadBucketStep(t, t2, cur, LoadBucket(cur, b, idx[..m - 1], true), b, m - 1);
    }
  }

  /** The first n new buckets are back. */
  ghost predicate NewsBack(t: Tables, cur: Tables, n: nat) {
    && |cur.news| == |t.news|
    && (forall b :: 0 <= b < n && b < |t.news| ==> cur.news[b] == Preimage(Order(t.info), t.news[b]))
    && (forall b :: n <= b < |t.news| ==> cur.news[b] == {})
  }

  lemma NewsBackStep(t: Tables, prev: Tables, cur: Tables, n: nat)
    requires NewsBack(t, prev, n) && n < |t.news| && t.news[n] <= NewIds(t.info)
    requires BucketPart(prev, cur, n, Indexes(NewIds(t.info), t.news[n]), |t.news[n]|)
    ensures NewsBack(t, cur, n + 1)
  {
    var idx := Indexes(NewIds(t.info), t.news[n]);
    assert idx[..|idx|] == idx;
    IndexesArePreimage(t, n);
  }

  lemma LoadBucketsLast(t: Tables, buckets: seq<seq<int>>, n: nat)
    requires n < |buckets| <= |t.news|
    ensures LoadBuckets(t, buckets[..n + 1], true) ==
      LoadBucket(LoadBuckets(t, buckets[..n], true), n, buckets[n], true)
  {
    assert buckets[..n + 1][..n] == buckets[..n];
  }

  lemma {:induction false} LoadBucketsRefs(t: Tables, t2: Tables, buckets: seq<seq<int>>, n: nat)
    requires FewRefs(t.news) && Referring(t, t2, t2) && NewsBack(t, t2, 0)
    requires n <= |buckets| == |t.news|
    requires forall b :: 0 <= b < |buckets| ==>
      t.news[b] <= NewIds(t.info) && buckets[b] == Indexes(NewIds(t.info), t.news[b])
    requires forall k :: 0 <= k < |NewIds(t.info)| ==> k in t2.info
    ensures Referring(t, t2, LoadBuckets(t2, buckets[..n], true))
    ensures NewsBack(t, LoadBuckets(t2, buckets[..n], true), n)
    decreases n
  {
    if n == 0 {
      assert LoadBuckets(t2, buckets[..n], true) == t2;
    } else {
      LoadBucketsRefs(t, t2, buckets, n - 1);
      var prev := LoadBuckets(t2, buckets[..n - 1], true);
      var idx := Indexes(NewIds(t.info), t.news[n - 1]);
      assert buckets[n - 1] == idx;
      LoadBucketRefs(t, t2, prev, n - 1, |idx|);
      assert idx[..|idx|] == idx;
      LoadBucketsLast(t2, buckets, n - 1);
      NewsBackStep(t, prev, LoadBuckets(t2, buckets[..n], true), n - 1);
    }
  }

  // ---------------------------------------------------------------- the round trip

  lemma RecordsInOrder(t: Tables, env: Env)
    requires Inv(t, env)
    ensures RecordsOf(t, Written(t, env).newInfos + Written(t, env).triedInfos)
    ensures DistinctIps(Written(t, env).newInfos + Written(t, env).triedInfos)
  {
    var g := Written(t, env);
    var all, order := g.newInfos + g.triedInfos, Order(t.info);
    forall k | 0 <= k < |all| ensures order[k] in t.info && all[k] == ToRecord(t.info[order[k]]) {
      OrderMembers(t.info, k);
    }
    forall j, k | 0 <= j < k < |all| ensures all[j].addr.ip != all[k].addr.ip {
      OrderDistinct(t.info, j, k);
      OrderMembers(t.info, j);
      OrderMembers(t.info, k);
      assert t.addr[all[j].addr.ip] == order[j] && t.addr[all[k].addr.ip] == order[k];
    }
  }

  /** The tables once the new entries are loaded, then once all are. */
  ghost function LoadedNew(t: Tables, env: Env): (t1: Tables)
    requires Inv(t, env)
    ensures |t1.tried| == TRIED_BUCKET_COUNT
  {
    var g := Written(t, env);
    LoadNew(Empty().(nNew := g.nNew, nTried := g.nTried), env, g.newInfos, false).(idCount := g.nNew)
  }

  ghost function LoadedEntries(t: Tables, env: Env): Tables
    requires Inv(t, env)
  {
    LoadTried(LoadedNew(t, env), env, Written(t, env).triedInfos)
  }

  ghost function AllRecords(t: Tables, env: Env): (all: seq<Record>)
    requires Inv(t, env)
  {
    Written(t, env).newInfos + Written(t, env).triedInfos
  }

  lemma SplitRecords(t: Tables, env: Env)
    requires Inv(t, env)
    ensures |NewIds(t.info)| <= |AllRecords(t, env)| == |Order(t.info)|
    ensures AllRecords(t, env)[..|NewIds(t.info)|] == Written(t, env).newInfos
    ensures AllRecords(t, env)[|NewIds(t.info)|..] == Written(t, env).triedInfos
  {
  }

  lemma NewBack(t: Tables, env: Env)
    requires Inv(t, env)
    ensures var all, nNew, t1 := AllRecords(t, env), |NewIds(t.info)|, LoadedNew(t, env);
      && nNew <= |all| && TriedLoaded(t1, t1, env, all, nNew, nNew)
      && t1.news == Empty().news && t1.nNew == t.nNew && t1.nTried == t.nTried
  {
    var all, nNew, t1 := AllRecords(t, env), |NewIds(t.info)|, LoadedNew(t, env);
    RecordsInOrder(t, env);
    SplitRecords(t, env);
    LoadNewFills(Empty().(nNew := t.nNew, nTried := t.nTried), env, all, nNew, nNew);
    NothingTried(t1, env, all, nNew);
  }

  lemma NothingTried(t1: Tables, env: Env, all: seq<Record>, nNew: nat)
    requires t1.tried == Empty().tried && nNew <= |all|
    ensures |t1.tried| == TRIED_BUCKET_COUNT
    ensures forall b :: 0 <= b < |t1.tried| ==> TriedPart(env, t1.tried[b], b, all, nNew, nNew)
  {
    forall b | 0 <= b < |t1.tried| ensures TriedPart(env, t1.tried[b], b, all, nNew, nNew) {
      assert t1.tried[b] == [];
    }
  }

  lemma EntriesBack(t: Tables, env: Env)
    requires Inv(t, env)
    ensures var all := AllRecords(t, env);
      TriedLoaded(LoadedNew(t, env), LoadedEntries(t, env), env, all, |all|, |NewIds(t.info)|)
  {
    var all, nNew := AllRecords(t, env), |NewIds(t.info)|;
    NewBack(t, env);
    RecordsInOrder(t, env);
    InvRoomy(t, env, all);
    SplitRecords(t, env);
    LoadTriedFills(LoadedNew(t, env), LoadedNew(t, env), env, all, nNew, nNew);
  }

  lemma NoneLost(t: Tables, env: Env)
    requires Inv(t, env)
    ensures var t2 := LoadedEntries(t, env);
      t2.idCount - t.nNew == |Written(t, env).triedInfos| && t2.nTried == t.nTried
  {
    EntriesBack(t, env);
    NewBack(t, env);
    SplitRecords(t, env);
  }

  lemma ReferencesBack(t: Tables, env: Env)
    requires Inv(t, env)
    ensures var t2 := LoadedEntries(t, env);
      var t3 := LoadBuckets(t2, Written(t, env).buckets, true);
      Referring(t, t2, t3) && NewsBack(t, t3, NEW_BUCKET_COUNT)
  {
    hide Inv, Written, LoadedEntries, LoadBuckets, FewRefs, Referring, NewsBack, Indexes;
    InvFewRefs(t, env);
    BucketsWritten(t, env);
    EntriesUnfiled(t, env);
    var t2, buckets := LoadedEntries(t, env), Written(t, env).buckets;
    LoadBucketsRefs(t, t2, buckets, |buckets|);
    assert buckets[..|buckets|] == buckets;
  }

  lemma BucketsWritten(t: Tables, env: Env)
    requires Inv(t, env)
    ensures var buckets := Written(t, env).buckets;
      && |buckets| == |t.news| == NEW_BUCKET_COUNT
      && forall b :: 0 <= b < |buckets| ==>
           t.news[b] <= NewIds(t.info) && buckets[b] == Indexes(NewIds(t.info), t.news[b])
  {
    hide Indexes, Records, Ascending;
  }

  /** The entries are loaded without references, and the buckets still empty. */
  lemma EntriesUnfiled(t: Tables, env: Env)
    requires Inv(t, env)
    ensures var t2 := LoadedEntries(t, env);
      && |t2.news| == NEW_BUCKET_COUNT && Referring(t, t2, t2) && NewsBack(t, t2, 0)
      && forall k :: 0 <= k < |NewIds(t.info)| ==> k in t2.info
  {
    hide Inv, Written, LoadedEntries, LoadedNew, AllRecords, TriedPart;
    NewBack(t, env);
    EntriesBack(t, env);
    BucketsWritten(t, env);
    Unfiled(t, LoadedEntries(t, env));
  }

  lemma Unfiled(t: Tables, t2: Tables)
    requires t2.news == Empty().news && |t.news| == NEW_BUCKET_COUNT
    requires forall k :: k in t2.info ==> t2.info[k].refCount == 0
    ensures Referring(t, t2, t2) && NewsBack(t, t2, 0)
  {
    EmptyBags([], t2.news);
  }

  lemma TriedBack(t: Tables, env: Env)
    requires Inv(t, env)
    ensures SameTried(t.tried, LoadedEntries(t, env).tried, Order(t.info))
    ensures forall b :: 0 <= b < TRIED_BUCKET_COUNT ==> |LoadedEntries(t, env).tried[b]| <= TRIED_BUCKET_SIZE
  {
    EntriesBack(t, env);
    RecordsInOrder(t, env);
    var order, tried := Order(t.info), LoadedEntries(t, env).tried;
    forall b, k | 0 <= b < |t.tried|
      ensures multiset(tried[b])[k] == if 0 <= k < |order| then multiset(t.tried[b])[order[k]] else 0
    {
      assert TriedPart(env, tried[b], b, AllRecords(t, env), |order|, |NewIds(t.info)|);
      if 0 <= k < |order| {
        OrderMembers(t.info, k);
        TriedHome(t, env, order[k], b);
      }
    }
  }

  /** What RecordsInOrder and the loaded entries say about one entry. */
  lemma EntryBack(t: Tables, all: seq<Record>, t2: Tables, t': Tables, nNew: nat, k: nat)
    requires RecordsOf(t, all) && k < |all| && nNew == |NewIds(t.info)|
    requires NewMatch(t.info, NewBag(t.news)) && RefRange(t.info)
    requires Filled(t2, all, |all|, nNew) && Referring(t, t2, t') && SameNews(t.news, t'.news, Order(t.info))
    ensures k in t'.info && Order(t.info)[k] in t.info
    ensures t'.info[k] == t.info[Order(t.info)[k]].(lastTry := 0, randomPos := k)
  {
    var x := Order(t.info)[k];
    OrderMembers(t.info, k);
    NewBagRenamed(t.news, t'.news, Order(t.info), k);
    assert NewBag(t.news)[x] == NewRefs(t.info, x);
  }

  lemma AddrsBack(t: Tables, all: seq<Record>, t2: Tables, nNew: nat)
    requires RecordsOf(t, all) && AddrIndex(t.info, t.addr) && Filled(t2, all, |all|, nNew)
    ensures t2.addr.Keys == t.addr.Keys
  {
    forall ip | ip in t.addr ensures ip in t2.addr {
      var k := OrderReaches(t.info, t.addr[ip]);
      assert all[k] == ToRecord(t.info[Order(t.info)[k]]);
      assert k in t2.info && t2.info[k].addr.ip == ip;
    }
    forall ip | ip in t2.addr ensures ip in t.addr {
      var k := t2.addr[ip];
      assert all[k] == ToRecord(t.info[Order(t.info)[k]]);
      var x := Order(t.info)[k];
      assert x in t.info && t.info[x].addr.ip == ip;
    }
  }

  /** Writing a consistent manager and reading it back gives the same manager
      but for new ids and order: the same entries, memberships, reference
      counts and tried buckets, with none lost; and it is consistent again. */
  lemma ReadBack(t: Tables, env: Env)
    requires Inv(t, env)
    ensures Complete(Written(t, env))
    ensures Renamed(t, Loaded(env, Written(t, env)), Order(t.info))
    ensures Inv(Loaded(env, Written(t, env)), env)
  {
    hide Inv, Written, Complete, Loaded, LoadedEntries, LoadBuckets, AllRecords, RecordsOf, Filled;
    hide SameTried, Renamed, NewMatch, RefRange, AddrIndex, NewBag;
    LoadedAs(t, env);
    EntriesLoaded(t, env);
    ReferencesBack(t, env);
    TriedBack(t, env);
    InvGives(t, env);
    var t2, t' := LoadedEntries(t, env), Loaded(env, Written(t, env));
    AllBack(t, AllRecords(t, env), t2, t', |NewIds(t.info)|);
    RenamedInv(t, env, t', Order(t.info));
  }

  lemma LoadedAs(t: Tables, env: Env)
    requires Inv(t, env)
    ensures Complete(Written(t, env)) && |Written(t, env).buckets| <= |LoadedEntries(t, env).news|
    ensures Loaded(env, Written(t, env)) == LoadBuckets(LoadedEntries(t, env), Written(t, env).buckets, true)
  {
    hide LoadBuckets, LoadTried, LoadNew, Ascending, Records, AllIndexes, NewIds, TriedIds;
    NoneLost(t, env);
  }

  lemma EntriesLoaded(t: Tables, env: Env)
    requires Inv(t, env)
    ensures var all, t2 := AllRecords(t, env), LoadedEntries(t, env);
      && RecordsOf(t, all) && Filled(t2, all, |all|, |NewIds(t.info)|)
      && t2.idCount == |all| && t2.nNew == t.nNew && t2.nTried == t.nTried && |t2.tried| == TRIED_BUCKET_COUNT
  {
    hide Inv, Written, LoadedEntries, LoadedNew, RecordsOf, Filled, DistinctIps, TriedPart;
    EntriesBack(t, env);
    NewBack(t, env);
    RecordsInOrder(t, env);
  }

  lemma InvGives(t: Tables, env: Env)
    requires Inv(t, env)
    ensures NewMatch(t.info, NewBag(t.news)) && RefRange(t.info) && AddrIndex(t.info, t.addr)
    ensures |t.news| == NEW_BUCKET_COUNT
  {
    assert NewBag(t.news) + multiset{} == NewBag(t.news);
  }

  /** A manager that passes its own check passes it again after reading back. */
  lemma ReadBackPassesCheck(t: Tables, env: Env)
    requires Inv(t, env) && CheckOk(t)
    ensures Complete(Written(t, env)) && CheckOk(Loaded(env, Written(t, env)))
  {
    hide Inv, InvUpTo, Written, Loaded, CheckOk;
    ReadBack(t, env);
    var t' := Loaded(env, Written(t, env));
    CheckExact(t, env);
    TimesBack(t.info, t'.info, Order(t.info));
    CheckExact(t', env);
  }

  lemma TimesBack(info: InfoMap, info': InfoMap, order: seq<int>)
    requires IsOrder(info, order) && SameEntries(info, info', order) && TimesOk(info)
    ensures TimesOk(info')
  {
  }

  lemma AllBack(t: Tables, all: seq<Record>, t2: Tables, t': Tables, nNew: nat)
    requires RecordsOf(t, all) && nNew == |NewIds(t.info)|
    requires NewMatch(t.info, NewBag(t.news)) && RefRange(t.info) && AddrIndex(t.info, t.addr)
    requires Filled(t2, all, |all|, nNew) && t2.idCount == |all| && t2.nNew == t.nNew && t2.nTried == t.nTried
    requires Referring(t, t2, t') && SameNews(t.news, t'.news, Order(t.info))
    requires SameTried(t.tried, t2.tried, Order(t.info))
    ensures Renamed(t, t', Order(t.info))
  {
    OrderOk(t.info);
    AddrsBack(t, all, t2, nNew);
    EntriesAllBack(t, all, t2, t', nNew);
    assert ByAddress(t'.info, t'.addr) by { SameAddrsBack(t2, t'); }
  }

  lemma SameAddrsBack(t2: Tables, t': Tables)
    requires ByAddress(t2.info, t2.addr) && t'.addr == t2.addr && t'.info.Keys == t2.info.Keys
    requires forall k :: k in t2.info ==> t'.info[k].addr == t2.info[k].addr
    ensures ByAddress(t'.info, t'.addr)
  {
  }

  lemma EntriesAllBack(t: Tables, all: seq<Record>, t2: Tables, t': Tables, nNew: nat)
    requires RecordsOf(t, all) && nNew == |NewIds(t.info)|
    requires NewMatch(t.info, NewBag(t.news)) && RefRange(t.info)
    requires Filled(t2, all, |all|, nNew) && Referring(t, t2, t') && SameNews(t.news, t'.news, Order(t.info))
    ensures (OrderOk(t.info); SameEntries(t.info, t'.info, Order(t.info)))
  {
    OrderOk(t.info);
    forall k ensures k in t'.info <==> 0 <= k < |Order(t.info)| {
      assert k in t'.info <==> k in t2.info;
    }
    forall k | 0 <= k < |Order(t.info)|
      ensures Order(t.info)[k] in t.info
      ensures t'.info[k] == t.info[Order(t.info)[k]].(lastTry := 0, randomPos := k)
    {
      EntryBack(t, all, t2, t', nNew, k);
    }
  }
}
