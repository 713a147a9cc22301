/** Reading a file that was written with another number of new buckets: its
    buckets are not used, and the new entries are filed again. */
module AddrRebuilt {
  import opened AddrTables
  import opened AddrDisk

  /** Each of the entries has one reference, in the bucket of its own source. */
  ghost predicate FiledAgain(t: Tables, env: Env, recs: seq<Record>) {
    && |t.news| == NEW_BUCKET_COUNT
    && (forall n :: 0 <= n < |recs| ==>
          n in t.info && t.info[n].addr == recs[n].addr && t.info[n].refCount == 1 && !t.info[n].inTried)
    && forall b, n :: 0 <= b < |t.news| ==> (n in t.news[b] <==> Belongs(env, recs, n, b))
  }

  predicate Belongs(env: Env, recs: seq<Record>, n: int, b: nat) {
    0 <= n < |recs| && b == NewBucket(env, recs[n].addr.ip, recs[n].source)
  }

  lemma {:induction false} NewFiledAgain(t: Tables, env: Env, recs: seq<Record>)
    requires |t.news| == NEW_BUCKET_COUNT && (forall b :: 0 <= b < |t.news| ==> t.news[b] == {})
    ensures FiledAgain(LoadNew(t, env, recs, true), env, recs)
    ensures LoadNew(t, env, recs, true).tried == t.tried
    decreases |recs|
  {
    if recs != [] {
      var k := |recs| - 1;
      NewFiledAgain(t, env, recs[..k]);
      OneFiledAgain(LoadNew(t, env, recs[..k], true), env, recs, k);
      assert recs[..k + 1] == recs;
    }
  }

  lemma OneFiledAgain(t: Tables, env: Env, recs: seq<Record>, k: nat)
    requires k < |recs| && FiledAgain(t, env, recs[..k])
    ensures FiledAgain(LoadOneNew(t, env, k, recs[k], true), env, recs[..k + 1])
  {
    hide NewBucket;
    var t' := LoadOneNew(t, env, k, recs[k], true);
    forall b, n | 0 <= b < |t'.news| ensures n in t'.news[b] <==> Belongs(env, recs[..k + 1], n, b) {
      assert n in t.news[b] <==> Belongs(env, recs[..k], n, b);
    }
  }

  lemma {:induction false} TriedLeavesNew(t: Tables, env: Env, recs: seq<Record>, all: seq<Record>)
    requires FiledAgain(t, env, all) && |t.tried| == TRIED_BUCKET_COUNT
    requires all == [] || t.idCount >= |all|
    ensures FiledAgain(LoadTried(t, env, recs), env, all)
    decreases |recs|
  {
    hide TriedBucket;
    if recs != [] {
      TriedLeavesNew(LoadOneTried(t, env, recs[0]), env, recs[1..], all);
    }
  }

  lemma {:induction false} RefsLeaveNew(t: Tables, env: Env, b: nat, indexes: seq<int>, all: seq<Record>)
    requires FiledAgain(t, env, all) && b < |t.news|
    ensures FiledAgain(LoadBucket(t, b, indexes, false), env, all)
    decreases |indexes|
  {
    if indexes != [] {
      RefsLeaveNew(t, env, b, indexes[..|indexes| - 1], all);
    }
  }

  lemma {:induction false} BucketsLeaveNew(t: Tables, env: Env, buckets: seq<seq<int>>, all: seq<Record>)
    requires FiledAgain(t, env, all) && |buckets| <= |t.news|
    ensures FiledAgain(LoadBuckets(t, buckets, false), env, all)
    decreases |buckets|
  {
    hide FiledAgain;
    if buckets != [] {
      var n := |buckets| - 1;
      BucketsLeaveNew(t, env, buckets[..n], all);
      RefsLeaveNew(LoadBuckets(t, buckets[..n], false), env, n, buckets[n], all);
    }
  }

  /** Whatever the buckets in the file say, every new entry has one reference
      afterwards, in the bucket that its own source gives, and no bucket holds
      anything else. */
  lemma OtherBucketCount(env: Env, g: Image)
    requires Complete(g) && g.nUBuckets != NEW_BUCKET_COUNT
    ensures FiledAgain(Loaded(env, g), env, g.newInfos)
  {
    hide FiledAgain, LoadNew, LoadTried, LoadBuckets;
    var t0 := Empty().(nNew := g.nNew, nTried := g.nTried);
    NewFiledAgain(t0, env, g.newInfos);
    var t1 := LoadNew(t0, env, g.newInfos, true);
    CountLeavesNew(t1, t1.(idCount := g.nNew), env, g.newInfos);
    TriedLeavesNew(t1.(idCount := g.nNew), env, g.triedInfos, g.newInfos);
    var t2 := LoadTried(t1.(idCount := g.nNew), env, g.triedInfos);
    var lost := |g.triedInfos| - (t2.idCount - g.nNew);
    CountLeavesNew(t2, t2.(nTried := g.nTried - lost), env, g.newInfos);
    BucketsLeaveNew(t2.(nTried := g.nTried - lost), env, g.buckets, g.newInfos);
  }

  lemma CountLeavesNew(t: Tables, t': Tables, env: Env, all: seq<Record>)
    requires FiledAgain(t, env, all) && t'.info == t.info && t'.news == t.news
    ensures FiledAgain(t', env, all)
  {
  }
}
