/** The write and read branches of the address manager's serializer, as loops
    over its own maps and buckets, against the format of AddrDisk. */
module AddrSerialize {
  import opened AddrTables
  import opened AddrOps
  import opened AddrDisk
  import opened Arith
  import Man = AddrMan

  // ---------------------------------------------------------------- writing

  ghost function Class(info: InfoMap, fTried: bool): set<int> {
    if fTried then TriedIds(info) else NewIds(info)
  }

  /** Of the ids gone through, those of the class, in order: written, numbered. */
  ghost predicate WrittenSoFar(info: InfoMap, ids: seq<int>, infos: seq<Record>, mapUnkIds: map<int, int>) {
    && InMap(info, ids) && infos == Records(info, ids)
    && forall k :: 0 <= k < |ids| ==> ids[k] in mapUnkIds && mapUnkIds[ids[k]] == k
  }

  ghost predicate WrittenUpTo(info: InfoMap, all: set<int>, done: set<int>, ids: seq<int>, infos: seq<Record>,
                              m: map<int, int>)
  {
    WrittenSoFar(info, ids, infos, m) && Lists(ids, all * done)
  }

  lemma WriteOne(info: InfoMap, all: set<int>, done: set<int>, ids: seq<int>, infos: seq<Record>,
                 m: map<int, int>, it: int)
    requires WrittenUpTo(info, all, done, ids, infos, m)
    requires it in info && forall x :: x in done ==> x < it
    ensures if it in all
      then WrittenUpTo(info, all, done + {it}, ids + [it], infos + [ToRecord(info[it])], m[it := |infos|])
      else WrittenUpTo(info, all, done + {it}, ids, infos, m[it := |infos|])
  {
    if it in all {
      ListsSnoc(ids, all * done, it);
      assert all * done + {it} == all * (done + {it});
    } else {
      assert all * done == all * (done + {it});
    }
  }

  /** The two loops over mapInfo: entries with references, then tried ones.
      Each stops early once it has written as many as its counter says. */
  method WriteInfos(am: Man.AddrMan, fTried: bool, nCount: int)
    returns (infos: seq<Record>, mapUnkIds: map<int, int>, ghost ids: seq<int>)
    requires RefRange(am.mapInfo) && nCount == |Class(am.mapInfo, fTried)|
    ensures WrittenSoFar(am.mapInfo, ids, infos, mapUnkIds) && ids == Ascending(Class(am.mapInfo, fTried))
  {
    infos, mapUnkIds, ids := [], map[], [];
    ghost var all, done := Class(am.mapInfo, fTried), {};
    var rest := am.mapInfo.Keys;
    while rest != {}
      invariant rest <= am.mapInfo.Keys && done == am.mapInfo.Keys - rest
      invariant forall x, y :: x in done && y in rest ==> x < y
      invariant WrittenUpTo(am.mapInfo, all, done, ids, infos, mapUnkIds)
      decreases |rest|
    {
      if |infos| == nCount {
        break;
      }
      var it := Man.Least(rest);
      WriteOne(am.mapInfo, all, done, ids, infos, mapUnkIds, it);
      mapUnkIds := mapUnkIds[it := |infos|];
      var info := am.mapInfo[it];
      if (if fTried then info.inTried else info.refCount != 0) {
        infos := infos + [ToRecord(info)];
        ids := ids + [it];
      }
      rest := rest - {it};
      done := done + {it};
    }
    AscendingLists(all * done);
    ListsUnique(ids, Ascending(all * done), all * done);
    AllOfThem(all * done, all, rest);
  }

  lemma AllOfThem(a: set<int>, b: set<int>, rest: set<int>)
    requires a <= b && (|a| == |b| || (rest == {} && b <= a + rest))
    ensures a == b
  {
    assert |b - a| == |b| - |a|;
  }

  method WriteBucket(ghost ids: set<int>, bucket: set<int>, mapUnkIds: map<int, int>) returns (indexes: seq<int>)
    requires bucket <= ids
    requires forall k :: 0 <= k < |ids| ==> Ascending(ids)[k] in mapUnkIds && mapUnkIds[Ascending(ids)[k]] == k
    ensures indexes == Indexes(ids, bucket)
  {
    indexes := [];
    ghost var list, done := [], {};
    var rest := bucket;
    while rest != {}
      invariant rest <= bucket && done == bucket - rest
      invariant forall x, y :: x in done && y in rest ==> x < y
      invariant IndexedSoFar(ids, done, list, indexes)
      decreases |rest|
    {
      var it := Man.Least(rest);
      assert Ascending(ids)[IndexOf(ids, it)] == it;
      IndexOne(ids, done, list, indexes, it);
      indexes := indexes + [mapUnkIds[it]];
      list := list + [it];
      rest := rest - {it};
      done := done + {it};
    }
    assert done == bucket;
    IndexedAll(ids, bucket, list, indexes);
  }

  ghost predicate IndexedSoFar(ids: set<int>, done: set<int>, list: seq<int>, indexes: seq<int>) {
    && Lists(list, done) && |indexes| == |list|
    && forall k :: 0 <= k < |list| ==> list[k] in ids && indexes[k] == IndexOf(ids, list[k])
  }

  lemma IndexOne(ids: set<int>, done: set<int>, list: seq<int>, indexes: seq<int>, it: int)
    requires IndexedSoFar(ids, done, list, indexes)
    requires it in ids && forall x :: x in done ==> x < it
    ensures IndexedSoFar(ids, done + {it}, list + [it], indexes + [IndexOf(ids, it)])
  {
    ListsSnoc(list, done, it);
  }

  lemma IndexedAll(ids: set<int>, bucket: set<int>, list: seq<int>, indexes: seq<int>)
    requires bucket <= ids && IndexedSoFar(ids, bucket, list, indexes)
    ensures indexes == Indexes(ids, bucket)
  {
    AscendingLists(bucket);
    ListsUnique(list, Ascending(bucket), bucket);
    forall k | 0 <= k < |bucket| ensures indexes[k] == Indexes(ids, bucket)[k] {
      IndexesAt(ids, bucket, k);
    }
  }

  /** A consistent manager is written as AddrDisk says. */
  method Write(am: Man.AddrMan) returns (g: Image)
    requires Inv(am.View(), am.env)
    ensures g == Written(am.View(), am.env)
  {
    ghost var t := am.View();
    var newInfos, mapUnkIds, _ := WriteInfos(am, false, am.nNew);
    var triedInfos, _, _ := WriteInfos(am, true, am.nTried);
    var buckets := [];
    for b := 0 to |am.vvNew|
      invariant buckets == AllIndexes(t, am.env, b)
    {
      BucketNew(t, am.env, b);
      var indexes := WriteBucket(NewIds(t.info), am.vvNew[b], mapUnkIds);
      buckets := buckets + [indexes];
    }
    g := Image(am.nNew, am.nTried, NEW_BUCKET_COUNT, newInfos, triedInfos, buckets);
  }

  // ---------------------------------------------------------------- reading

  method ReadNew(am: Man.AddrMan, recs: seq<Record>, rebuild: bool)
    requires |am.vvNew| == NEW_BUCKET_COUNT
    modifies am
    ensures am.View() == LoadNew(old(am.View()), am.env, recs, rebuild)
  {
    for n := 0 to |recs|
      invariant |am.vvNew| == NEW_BUCKET_COUNT
      invariant am.View() == LoadNew(old(am.View()), am.env, recs[..n], rebuild)
    {
      assert recs[..n + 1][..n] == recs[..n];
      var info := FromRecord(recs[n]);
      am.mapAddr := am.mapAddr[info.addr.ip := n];
      info := info.(randomPos := |am.vRandom|);
      am.vRandom := am.vRandom + [n];
      if rebuild {
        var b := NewBucket(am.env, info.addr.ip, info.source);
        am.vvNew := am.vvNew[b := am.vvNew[b] + {n}];
        info := info.(refCount := info.refCount + 1);
      }
      am.mapInfo := am.mapInfo[n := info];
    }
    assert recs[..|recs|] == recs;
  }

  method ReadTried(am: Man.AddrMan, recs: seq<Record>) returns (nLost: int)
    requires |am.vvTried| == TRIED_BUCKET_COUNT
    modifies am
    ensures am.View() == LoadTried(old(am.View()), am.env, recs)
    ensures nLost == |recs| - (am.nIdCount - old(am.nIdCount))
  {
    nLost := 0;
    for n := 0 to |recs|
      invariant |am.vvTried| == TRIED_BUCKET_COUNT && nLost == n - (am.nIdCount - old(am.nIdCount))
      invariant LoadTried(am.View(), am.env, recs[n..]) == LoadTried(old(am.View()), am.env, recs)
    {
      assert recs[n..][1..] == recs[n + 1..];
      var fLost := ReadOneTried(am, recs[n]);
      nLost := if fLost then nLost + 1 else nLost;
    }
  }

  method ReadOneTried(am: Man.AddrMan, rec: Record) returns (fLost: bool)
    requires |am.vvTried| == TRIED_BUCKET_COUNT
    modifies am
    ensures am.View() == LoadOneTried(old(am.View()), am.env, rec)
    ensures |am.vvTried| == TRIED_BUCKET_COUNT
    ensures am.nIdCount == if fLost then old(am.nIdCount) else old(am.nIdCount) + 1
  {
    var info := FromRecord(rec);
    var b := TriedBucket(am.env, info.addr);
    fLost := |am.vvTried[b]| >= TRIED_BUCKET_SIZE;
    if !fLost {
      info := info.(randomPos := |am.vRandom|, inTried := true);
      am.vRandom := am.vRandom + [am.nIdCount];
      am.mapInfo := am.mapInfo[am.nIdCount := info];
      am.mapAddr := am.mapAddr[info.addr.ip := am.nIdCount];
      am.vvTried := am.vvTried[b := am.vvTried[b] + [am.nIdCount]];
      am.nIdCount := am.nIdCount + 1;
    }
  }

  method ReadBucket(am: Man.AddrMan, b: nat, indexes: seq<int>, use: bool)
    requires b < |am.vvNew|
    modifies am
    ensures am.View() == LoadBucket(old(am.View()), b, indexes, use)
  {
    for n := 0 to |indexes|
      invariant b < |am.vvNew|
      invariant am.View() == LoadBucket(old(am.View()), b, indexes[..n], use)
    {
      assert indexes[..n + 1][..n] == indexes[..n];
      var nIndex := indexes[n];
      if nIndex !in am.mapInfo {
        am.mapInfo := am.mapInfo[nIndex := Blank()];
      }
      var info := am.mapInfo[nIndex];
      if use && info.refCount < NEW_BUCKETS_PER_ADDRESS {
        am.mapInfo := am.mapInfo[nIndex := info.(refCount := info.refCount + 1)];
        am.vvNew := am.vvNew[b := am.vvNew[b] + {nIndex}];
      }
    }
    assert indexes[..|indexes|] == indexes;
  }

  method Clear(am: Man.AddrMan, nNew: int, nTried: int)
    modifies am
    ensures am.View() == Empty().(nNew := nNew, nTried := nTried)
  {
    am.nNew, am.nTried := nNew, nTried;
    am.nIdCount, am.mapInfo, am.mapAddr, am.vRandom := 0, map[], map[], [];
    am.vvTried := seq(TRIED_BUCKET_COUNT, _ => []);
    am.vvNew := seq(NEW_BUCKET_COUNT, _ => {});
  }

  method ReadBuckets(am: Man.AddrMan, buckets: seq<seq<int>>, use: bool)
    requires |buckets| <= |am.vvNew|
    modifies am
    ensures am.View() == LoadBuckets(old(am.View()), buckets, use)
  {
    for b := 0 to |buckets|
      invariant |am.vvNew| == old(|am.vvNew|)
      invariant am.View() == LoadBuckets(old(am.View()), buckets[..b], use)
    {
      assert buckets[..b + 1][..b] == buckets[..b];
      ReadBucket(am, b, buckets[b], use);
    }
    assert buckets[..|buckets|] == buckets;
  }

  /** Reading clears the manager and rebuilds all its tables. */
  method Read(am: Man.AddrMan, g: Image)
    requires Complete(g)
    modifies am
    ensures am.View() == Loaded(am.env, g)
  {
    Clear(am, g.nNew, g.nTried);
    ReadNew(am, g.newInfos, g.nUBuckets != NEW_BUCKET_COUNT);
    am.nIdCount := am.nNew;
    LoadNewFrame(Empty().(nNew := g.nNew, nTried := g.nTried), am.env, g.newInfos, g.nUBuckets != NEW_BUCKET_COUNT);
    ghost var t1 := am.View();
    var nLost := ReadTried(am, g.triedInfos);
    LoadTriedFrame(t1, am.env, g.triedInfos);
    am.nTried := am.nTried - nLost;
    ReadBuckets(am, g.buckets, g.nUBuckets == NEW_BUCKET_COUNT);
  }

  lemma {:induction false} LoadNewFrame(t: Tables, env: Env, recs: seq<Record>, rebuild: bool)
    requires |t.news| == NEW_BUCKET_COUNT
    ensures LoadNew(t, env, recs, rebuild).nNew == t.nNew && LoadNew(t, env, recs, rebuild).nTried == t.nTried
  {
    if recs != [] {
      LoadNewFrame(t, env, recs[..|recs| - 1], rebuild);
    }
  }

  lemma {:induction false} LoadTriedFrame(t: Tables, env: Env, recs: seq<Record>)
    requires |t.tried| == TRIED_BUCKET_COUNT
    ensures LoadTried(t, env, recs).nTried == t.nTried
    decreases |recs|
  {
    if recs != [] {
      LoadTriedFrame(LoadOneTried(t, env, recs[0]), env, recs[1..]);
    }
  }
}
