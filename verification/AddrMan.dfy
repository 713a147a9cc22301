/** The address manager itself: an object whose methods change its maps,
    vectors and counters in place, each proved against the function on tables
    that says what it does. */
module AddrMan {
  import opened AddrTables
  import opened AddrOps
  import opened AddrRuns
  import opened AddrSelect
  import opened Arith

  /** A random number below nMax. */
  method GetRandInt(nMax: nat) returns (r: nat)
    requires nMax > 0
    ensures r < nMax
  {
    r :| 0 <= r < nMax;
  }

  class AddrMan {
    const env: Env
    var nIdCount: int
    var mapInfo: map<int, Info>
    var mapAddr: map<Ip, int>
    var vRandom: seq<int>
    var nTried: int
    var vvTried: seq<seq<int>>
    var nNew: int
    var vvNew: seq<set<int>>

    function View(): Tables
      reads this
    {
      Tables(nIdCount, mapInfo, mapAddr, vRandom, nTried, vvTried, nNew, vvNew)
    }

    constructor (env: Env)
      ensures View() == Empty() && this.env == env
    {
      this.env := env;
      nIdCount, mapInfo, mapAddr, vRandom := 0, map[], map[], [];
      nTried, vvTried := 0, seq(TRIED_BUCKET_COUNT, _ => []);
      nNew, vvNew := 0, seq(NEW_BUCKET_COUNT, _ => {});
    }

    method Create(i: Info) returns (nId: int)
      modifies this
      ensures View() == Created(old(View()), i) && nId == old(nIdCount)
    {
      nId := nIdCount;
      nIdCount := nIdCount + 1;
      mapInfo := mapInfo[nId := i];
      mapAddr := mapAddr[i.addr.ip := nId];
      mapInfo := mapInfo[nId := mapInfo[nId].(randomPos := |vRandom|)];
      vRandom := vRandom + [nId];
      assert old(mapInfo)[nId := i][nId := i.(randomPos := |old(vRandom)|)] == mapInfo;
    }

    method SwapRandom(nRndPos1: nat, nRndPos2: nat)
      requires nRndPos1 < |vRandom| && nRndPos2 < |vRandom|
      requires vRandom[nRndPos1] in mapInfo && vRandom[nRndPos2] in mapInfo
      modifies this`mapInfo, this`vRandom
      ensures View() == Swapped(old(View()), nRndPos1, nRndPos2)
    {
      if nRndPos1 == nRndPos2 {
        return;
      }
      var nId1, nId2 := vRandom[nRndPos1], vRandom[nRndPos2];
      mapInfo := mapInfo[nId1 := mapInfo[nId1].(randomPos := nRndPos2)];
      mapInfo := mapInfo[nId2 := mapInfo[nId2].(randomPos := nRndPos1)];
      vRandom := vRandom[nRndPos1 := nId2];
      vRandom := vRandom[nRndPos2 := nId1];
    }

    /** Brings a few entries of the bucket to its front and compares them.  The
        position recorded with a candidate is the one it was brought from. */
    method SelectTried(nKBucket: nat) returns (nOldestPos: int, ghost places: seq<nat>)
      requires nKBucket < |vvTried|
      requires forall x :: x in vvTried[nKBucket] ==> x in mapInfo && x >= 0
      modifies this`vvTried
      ensures |vvTried| == |old(vvTried)| && vvTried == old(vvTried)[nKBucket := vvTried[nKBucket]]
      ensures Picked(mapInfo, old(vvTried[nKBucket]), places, vvTried[nKBucket], nOldestPos)
    {
      hide Deciding, Fronted, Position, Places;
      ghost var s := vvTried[nKBucket];
      var nOldest := -1;
      nOldestPos, places := -1, [];
      NothingYet(mapInfo, s);
      var i := 0;
      while i < INSPECTED && i < |vvTried[nKBucket]|
        invariant 0 <= i <= |s| && i <= INSPECTED && |places| == i && Places(s, places)
        invariant |vvTried| == |old(vvTried)| && vvTried == old(vvTried)[nKBucket := Fronted(s, places)]
        invariant nOldestPos == Position(mapInfo, s, places)
        invariant i == 0 ==> nOldest == -1
        invariant i > 0 ==> nOldest in mapInfo && nOldest >= 0
        invariant i > 0 ==> nOldest == Fronted(s, places)[Deciding(mapInfo, Fronted(s, places), i)]
      {
        var vTried := vvTried[nKBucket];
        var r := GetRandInt(|vTried| - i);
        var nPos := r + i;
        var nTemp := vTried[nPos];
        NextRound(mapInfo, s, places, nPos);
        if i > 0 {
          NextDecides(mapInfo, s, places, nPos);
        }
        vvTried := vvTried[nKBucket := vTried[nPos := vTried[i]][i := nTemp]];
        if nOldest == -1 || mapInfo[nTemp].lastSuccess < mapInfo[nOldest].lastSuccess {
          nOldest := nTemp;
          nOldestPos := nPos;
        }
        places := places + [nPos];
        i := i + 1;
      }
    }

    /** Remove one reference of `id` from the bucket, and the entry itself
        with its last one. */
    method Drop(nUBucket: nat, id: int)
      requires RandomIndex(mapInfo, vRandom) && id in mapInfo && nUBucket < |vvNew|
      modifies this
      ensures View() == Dropped(old(View()), nUBucket, id)
    {
      var i := mapInfo[id];
      if i.refCount - 1 == 0 {
        SwapRandom(i.randomPos, |vRandom| - 1);
        vRandom := vRandom[..|vRandom| - 1];
        mapAddr := mapAddr - {i.addr.ip};
        mapInfo := mapInfo - {id};
        nNew := nNew - 1;
      } else {
        mapInfo := mapInfo[id := i.(refCount := i.refCount - 1)];
      }
      vvNew := vvNew[nUBucket := vvNew[nUBucket] - {id}];
    }

    /** The first deletable entry of the bucket in ascending order, if any. */
    method FirstTerrible(bucket: set<int>, now: int) returns (found: bool, id: int)
      requires forall x :: x in bucket ==> x in mapInfo
      ensures found <==> exists x :: x in bucket && IsTerrible(mapInfo[x], now)
      ensures found ==> id in bucket && IsTerrible(mapInfo[id], now)
      ensures found ==> forall x :: x in bucket && IsTerrible(mapInfo[x], now) ==> id <= x
    {
      found, id := false, -1;
      var rest := bucket;
      while rest != {}
        invariant rest <= bucket
        invariant forall x, y :: x in bucket && x !in rest && y in rest ==> x < y
        invariant forall x :: x in bucket && x !in rest ==> !IsTerrible(mapInfo[x], now)
        decreases |rest|
      {
        id := Least(rest);
        if IsTerrible(mapInfo[id], now) {
          found := true;
          return;
        }
        rest := rest - {id};
      }
    }

    /** Of the entries at the picked places, the one seen longest ago. */
    method OldestPicked(bucket: set<int>, picks: set<nat>) returns (nOldest: int)
      requires forall x :: x in bucket ==> x in mapInfo && x >= 0
      requires exists n :: n in picks && n < |bucket|
      ensures nOldest in bucket && Rank(bucket, nOldest) in picks
      ensures forall x :: x in bucket && Rank(bucket, x) in picks ==>
        mapInfo[nOldest].time < mapInfo[x].time || (mapInfo[nOldest].time == mapInfo[x].time && nOldest <= x)
    {
      var nI := 0;
      nOldest := -1;
      var rest := bucket;
      ghost var pick :| pick in picks && pick < |bucket|;
      while rest != {}
        invariant rest <= bucket && nI == |bucket| - |rest|
        invariant forall x, y :: x in bucket && x !in rest && y in rest ==> x < y
        invariant nOldest == -1 ==> nI <= pick && forall x :: x in bucket && x !in rest ==> Rank(bucket, x) !in picks
        invariant nOldest != -1 ==> nOldest in bucket && nOldest !in rest && Rank(bucket, nOldest) in picks
        invariant nOldest != -1 ==> forall x :: x in bucket && x !in rest && Rank(bucket, x) in picks ==>
          mapInfo[nOldest].time < mapInfo[x].time || (mapInfo[nOldest].time == mapInfo[x].time && nOldest <= x)
        decreases |rest|
      {
        var it := Least(rest);
        RankOfLeast(bucket, rest, it);
        if nI in picks {
          if nOldest == -1 || mapInfo[it].time < mapInfo[nOldest].time {
            nOldest := it;
          }
        }
        nI := nI + 1;
        rest := rest - {it};
      }
    }

    method ShrinkNew(nUBucket: nat, now: int) returns (r: int, ghost picks: set<nat>, ghost victim: int)
      requires RandomIndex(mapInfo, vRandom) && nUBucket < |vvNew| && vvNew[nUBucket] != {}
      requires forall x :: x in vvNew[nUBucket] ==> x in mapInfo && x >= 0
      modifies this
      ensures IsVictim(old(mapInfo), old(vvNew)[nUBucket], now, picks, victim)
      ensures View() == Dropped(old(View()), nUBucket, victim)
      ensures r == 0 <==> IsTerrible(old(mapInfo)[victim], now)
    {
      var vNew := vvNew[nUBucket];
      HasMember(vNew);
      var found, id := FirstTerrible(vNew, now);
      picks, victim := {}, id;
      if found {
        Drop(nUBucket, id);
        return 0, picks, victim;
      }
      var n0 := GetRandInt(|vNew|);
      var n1 := GetRandInt(|vNew|);
      var n2 := GetRandInt(|vNew|);
      var n3 := GetRandInt(|vNew|);
      picks := {n0, n1, n2, n3};
      var nOldest := OldestPicked(vNew, {n0, n1, n2, n3});
      victim := nOldest;
      Drop(nUBucket, nOldest);
      r := 1;
    }
  
    /** Take `nId` out of every new bucket, counting its references down. */
    method Unfile(nId: int)
      requires nId in mapInfo
      modifies this`vvNew, this`mapInfo
      ensures vvNew == Without(old(vvNew), nId)
      ensures mapInfo == old(mapInfo)[nId := old(mapInfo)[nId].(
        refCount := old(mapInfo)[nId].refCount - NewBag(old(vvNew))[nId])]
    {
      hide NewBag;
      ghost var was := vvNew;
      CountPrefix(was, 0, nId);
      for k := 0 to |vvNew|
        invariant |vvNew| == |was|
        invariant forall b :: 0 <= b < k ==> vvNew[b] == was[b] - {nId}
        invariant forall b :: k <= b < |was| ==> vvNew[b] == was[b]
        invariant nId in mapInfo && mapInfo == old(mapInfo)[nId := mapInfo[nId]]
        invariant mapInfo[nId] == old(mapInfo)[nId].(
          refCount := old(mapInfo)[nId].refCount - NewBag(was[..k])[nId])
      {
        CountPrefix(was, k, nId);
        if nId in vvNew[k] {
          vvNew := vvNew[k := vvNew[k] - {nId}];
          mapInfo := mapInfo[nId := mapInfo[nId].(refCount := mapInfo[nId].refCount - 1)];
        }
      }
      assert was[..|was|] == was;
    }

    /** The entry evicted from a full tried bucket is the one at the position
        that SelectTried returns. */
    method MakeTried(nId: int, nOrigin: nat)
        returns (ghost places: seq<nat>, ghost shuffled: seq<int>, ghost nPos: int)
      requires Inv(View(), env) && nId in mapInfo && !mapInfo[nId].inTried
      requires nOrigin < |vvNew| && nId in vvNew[nOrigin]
      modifies this
      ensures nPos >= 0
      ensures var bucket := old(vvTried)[TriedBucket(env, old(mapInfo)[nId].addr)];
        |bucket| < TRIED_BUCKET_SIZE
        || (Shuffle(bucket, shuffled, nPos) && Picked(old(mapInfo), bucket, places, shuffled, nPos))
      ensures View() == MadeTried(old(View()), env, nId, nOrigin, shuffled, nPos)
    {
      hide Fronted, Position, Places, Picked, LastSuccess;
      ghost var t := View();
      ghost var t1 := Uncounted(t, nId);
      Unfile(nId);
      nNew := nNew - 1;
      assert View() == t1;
      LastReference(t, env, nId, nOrigin);
      assert mapInfo[nId].refCount == 0;

      var nKBucket := TriedBucket(env, mapInfo[nId].addr);
      if |vvTried[nKBucket]| < TRIED_BUCKET_SIZE {
        vvTried := vvTried[nKBucket := vvTried[nKBucket] + [nId]];
        nTried := nTried + 1;
        mapInfo := mapInfo[nId := mapInfo[nId].(inTried := true)];
        return [], [], 0;
      }

      TriedKnown(t, env, nKBucket);
      ghost var was := vvTried[nKBucket];
      var pos;
      pos, places := SelectTried(nKBucket);
      shuffled, nPos := vvTried[nKBucket], pos;
      PickedFits(mapInfo, was, places, shuffled, nPos);
      PickedBefore(t, nId, was, places, shuffled, nPos);
      ShuffledMember(t, env, nKBucket, shuffled, pos);
      Exchange(nKBucket, pos, nOrigin, nId);
    }

    /** Evict the entry at nPos of a tried bucket in favour of nId. */
    method Exchange(nKBucket: nat, nPos: nat, nOrigin: nat, nId: int)
      requires nKBucket < |vvTried| && nPos < |vvTried[nKBucket]| && nOrigin < |vvNew| == NEW_BUCKET_COUNT
      requires nId in mapInfo && vvTried[nKBucket][nPos] in mapInfo
      modifies this
      ensures var t := old(View()); var evicted := t.tried[nKBucket][nPos];
        var u := NewBucket(env, t.info[evicted].addr.ip, t.info[evicted].source);
        View() == Exchanged(t, nKBucket, t.tried[nKBucket], nPos,
                            if |t.news[u]| < NEW_BUCKET_SIZE then u else nOrigin, nId)
    {
      var evicted := vvTried[nKBucket][nPos];
      var nUBucket := NewBucket(env, mapInfo[evicted].addr.ip, mapInfo[evicted].source);
      mapInfo := mapInfo[evicted := mapInfo[evicted].(inTried := false, refCount := 1)];
      if |vvNew[nUBucket]| < NEW_BUCKET_SIZE {
        vvNew := vvNew[nUBucket := vvNew[nUBucket] + {evicted}];
      } else {
        vvNew := vvNew[nOrigin := vvNew[nOrigin] + {evicted}];
      }
      nNew := nNew + 1;
      vvTried := vvTried[nKBucket := vvTried[nKBucket][nPos := nId]];
      mapInfo := mapInfo[nId := mapInfo[nId].(inTried := true)];
    }

    method Find(addr: Ip) returns (found: bool, nId: int)
      ensures found <==> addr in mapAddr && mapAddr[addr] in mapInfo
      ensures found ==> nId == mapAddr[addr]
    {
      found, nId := false, -1;
      if addr in mapAddr {
        nId := mapAddr[addr];
        found := nId in mapInfo;
      }
    }

    /** Some new bucket holding nId, searched from a random one on; -1 if none. */
    method BucketOf(nId: int) returns (nUBucket: int)
      requires |vvNew| == NEW_BUCKET_COUNT
      ensures nUBucket == -1 ==> forall b :: 0 <= b < |vvNew| ==> nId !in vvNew[b]
      ensures nUBucket != -1 ==> 0 <= nUBucket < |vvNew| && nId in vvNew[nUBucket]
    {
      var nRnd := GetRandInt(|vvNew|);
      nUBucket := -1;
      for n := 0 to |vvNew|
        invariant forall k :: 0 <= k < n ==> nId !in vvNew[Around(k, nRnd, |vvNew|)]
      {
        var nB := Around(n, nRnd, |vvNew|);
        if nId in vvNew[nB] {
          return nB;
        }
      }
      forall b | 0 <= b < |vvNew| ensures nId !in vvNew[b] {
        var k := if b >= nRnd then b - nRnd else b - nRnd + |vvNew|;
        assert nId !in vvNew[Around(k, nRnd, |vvNew|)];
      }
    }

    method Good_(addr: Service, nTime: int)
        returns (ghost origin: nat, ghost places: seq<nat>, ghost shuffled: seq<int>, ghost pos: nat)
      requires Inv(View(), env)
      modifies this
      ensures GoodChoices(old(View()), env, addr, origin, shuffled, pos)
      ensures View() == MadeGood(old(View()), env, addr, nTime, origin, shuffled, pos)
      ensures Evicts(old(View()), env, addr) ==>
        Picked(old(mapInfo), old(vvTried)[TriedBucket(env, addr)], places, shuffled, pos)
    {
      hide Fronted, Position, Places, Picked, LastSuccess;
      origin, places, shuffled, pos := 0, [], [], 0;
      ghost var t := View();
      var found, nId := Find(addr.ip);
      if !found || mapInfo[nId].addr != addr {
        return;
      }
      TouchKeeps(t, env, multiset{}, nId, MarkedGood(mapInfo[nId], nTime));
      mapInfo := mapInfo[nId := MarkedGood(mapInfo[nId], nTime)];
      if mapInfo[nId].inTried {
        return;
      }
      ghost var held := FindBucket(t, env, nId);
      var nUBucket := BucketOf(nId);
      if nUBucket == -1 {
        assert false;
      }
      origin := nUBucket;
      ghost var marked := mapInfo;
      places, shuffled, pos := MakeTried(nId, nUBucket);
      if Evicts(t, env, addr) {
        PickedUnmarked(t, env, addr, nTime, marked, places, shuffled, pos);
      }
    }

    method Attempt_(addr: Service, nTime: int)
      requires Inv(View(), env)
      modifies this`mapInfo
      ensures View() == Attempted(old(View()), addr, nTime)
    {
      var found, nId := Find(addr.ip);
      if found && mapInfo[nId].addr == addr {
        mapInfo := mapInfo[nId := mapInfo[nId].(lastTry := nTime, attempts := mapInfo[nId].attempts + 1)];
      }
    }

    method Connected_(addr: Service, nTime: int)
      requires Inv(View(), env)
      modifies this`mapInfo
      ensures View() == Connected(old(View()), addr, nTime)
    {
      var found, nId := Find(addr.ip);
      if found && mapInfo[nId].addr == addr && nTime - mapInfo[nId].time > 20 * 60 {
        mapInfo := mapInfo[nId := mapInfo[nId].(time := AsUint32(nTime))];
      }
    }

    /** The doubling loop of the stochastic test. */
    method Factor(nRefCount: int) returns (nFactor: nat)
      ensures nFactor == Pow2(nRefCount)
    {
      nFactor := 1;
      var n := 0;
      while n < nRefCount
        invariant nFactor == Pow2(n) && 0 <= n && (n <= nRefCount || n == 0)
      {
        nFactor := nFactor * 2;
        n := n + 1;
      }
    }

    /** Make way in a full bucket for nId, whose reference is already counted. */
    method MakeRoom(nUBucket: nat, nId: int, now: int) returns (ghost picks: set<nat>, ghost victim: int)
      requires RandomIndex(mapInfo, vRandom) && nUBucket < |vvNew| && nId !in vvNew[nUBucket]
      requires forall x :: x in vvNew[nUBucket] ==> x in mapInfo && x >= 0
      modifies this
      ensures |old(vvNew)[nUBucket]| == NEW_BUCKET_SIZE ==>
        IsVictim(old(mapInfo), old(vvNew)[nUBucket], now, picks, victim)
      ensures View() ==
        if |old(vvNew)[nUBucket]| == NEW_BUCKET_SIZE then Dropped(old(View()), nUBucket, victim) else old(View())
    {
      picks, victim := {}, nId;
      if |vvNew[nUBucket]| == NEW_BUCKET_SIZE {
        var r;
        r, picks, victim := ShrinkNew(nUBucket, now);
      }
    }

    /** File nId in its bucket, making way for it if the bucket is full. */
    method File(nId: int, nUBucket: nat, now: int) returns (ghost picks: set<nat>, ghost victim: int)
      requires RandomIndex(mapInfo, vRandom) && nId in mapInfo && nUBucket < |vvNew|
      requires forall x :: x in vvNew[nUBucket] ==> x in mapInfo && x >= 0
      requires nId !in vvNew[nUBucket]
      modifies this
      ensures |old(vvNew)[nUBucket]| == NEW_BUCKET_SIZE ==>
        IsVictim(old(mapInfo), old(vvNew)[nUBucket], now, picks, victim)
      ensures View() == Filed(old(View()), nUBucket, nId, victim)
    {
      ghost var t := View();
      mapInfo := mapInfo[nId := mapInfo[nId].(refCount := mapInfo[nId].refCount + 1)];
      assert View() == Counted(t, nId);
      picks, victim := MakeRoom(nUBucket, nId, now);
      if |t.news[nUBucket]| == NEW_BUCKET_SIZE {
        VictimSame(t.info, Counted(t, nId).info, t.news[nUBucket], now, picks, victim);
      }
      vvNew := vvNew[nUBucket := vvNew[nUBucket] + {nId}];
    }

    /** Update a known entry; `go` unless one of the early returns is taken. */
    method Refresh(nId: int, addr: Address, nTimePenalty: int, now: int) returns (go: bool, roll: nat)
      requires nId in mapInfo
      modifies this`mapInfo
      ensures mapInfo == old(mapInfo)[nId := Refreshed(old(mapInfo)[nId], addr, nTimePenalty, now)]
      ensures go <==> !Declined(mapInfo[nId], addr, roll)
      ensures roll < Pow2(old(mapInfo)[nId].refCount)
    {
      roll := 0;
      var pinfo := mapInfo[nId];
      var fCurrentlyOnline := now - addr.time < 24 * 60 * 60;
      var nUpdateInterval := if fCurrentlyOnline then 60 * 60 else 24 * 60 * 60;
      if addr.time != 0 && (pinfo.time == 0 || pinfo.time < addr.time - nUpdateInterval - nTimePenalty) {
        pinfo := pinfo.(time := AsUint32(Max(0, addr.time - nTimePenalty)));
      }
      pinfo := pinfo.(services := pinfo.services + addr.services);
      mapInfo := mapInfo[nId := pinfo];
      if addr.time == 0 || (pinfo.time != 0 && addr.time <= pinfo.time) {
        return false, roll;
      }
      if pinfo.inTried {
        return false, roll;
      }
      if pinfo.refCount == NEW_BUCKETS_PER_ADDRESS {
        return false, roll;
      }
      var nFactor := Factor(pinfo.refCount);
      if nFactor > 1 {
        roll := GetRandInt(nFactor);
      }
      go := !(nFactor > 1 && roll != 0);
    }

    method Add_(addr: Address, source: Ip, nTimePenalty: int, now: int) returns (fNew: bool, ghost op: Op)
      requires Inv(View(), env)
      modifies this
      ensures op.Add? && op.a == addr && op.source == source && op.penalty == nTimePenalty && op.now == now
      ensures Allowed(old(View()), env, op)
      ensures addr.addr.ip in old(mapAddr) ==> op.roll < Pow2(old(mapInfo)[old(mapAddr)[addr.addr.ip]].refCount)
      ensures (View(), fNew) == Added(old(View()), env, addr, source, nTimePenalty, now, op.roll, op.victim)
    {
      var b := NewBucket(env, addr.addr.ip, source);
      BucketKnown(View(), env, b);
      ghost var victim, picks := -1, {};
      if |vvNew[b]| >= NEW_BUCKET_SIZE {
        HasMember(vvNew[b]);
        victim :| victim in vvNew[b];
      }
      op := Add(addr, source, nTimePenalty, now, 0, picks, victim);
      fNew := false;
      if !env.routable(addr.addr.ip) {
        return;
      }
      var found, nId := Find(addr.addr.ip);
      if found {
        op := AddKnown(nId, addr, source, nTimePenalty, now, op);
      } else {
        fNew := true;
        op := AddFresh(addr, source, nTimePenalty, now);
      }
    }

    method AddKnown(nId: int, addr: Address, source: Ip, nTimePenalty: int, now: int, ghost dflt: Op)
        returns (ghost op: Op)
      requires Inv(View(), env) && env.routable(addr.addr.ip)
      requires addr.addr.ip in mapAddr && nId == mapAddr[addr.addr.ip]
      requires dflt.Add? && Room(View(), NewBucket(env, addr.addr.ip, source), dflt.victim)
      modifies this
      ensures op.Add? && op == Add(addr, source, nTimePenalty, now, op.roll, op.picks, op.victim)
      ensures Allowed(old(View()), env, op) && op.roll < Pow2(old(mapInfo)[nId].refCount)
      ensures View() == Added(old(View()), env, addr, source, nTimePenalty, now, op.roll, op.victim).0
    {
      var b := NewBucket(env, addr.addr.ip, source);
      ghost var t := View();
      BucketKnown(t, env, b);
      var go, roll := Refresh(nId, addr, nTimePenalty, now);
      ghost var t1 := View();
      TouchKeeps(t, env, multiset{}, nId, t1.info[nId]);
      op := Add(addr, source, nTimePenalty, now, roll, dflt.picks, dflt.victim);
      if go && nId !in vvNew[b] {
        BucketKnown(t1, env, b);
        ghost var picks, victim := File(nId, b, now);
        VictimElsewhere(t, t1, env, b, nId, now, picks, victim);
        op := op.(picks := picks, victim := if |t.news[b]| == NEW_BUCKET_SIZE then victim else dflt.victim);
      }
    }

    method AddFresh(addr: Address, source: Ip, nTimePenalty: int, now: int) returns (ghost op: Op)
      requires Inv(View(), env) && env.routable(addr.addr.ip) && addr.addr.ip !in mapAddr
      modifies this
      ensures op.Add? && op == Add(addr, source, nTimePenalty, now, op.roll, op.picks, op.victim)
      ensures Allowed(old(View()), env, op)
      ensures View() == Added(old(View()), env, addr, source, nTimePenalty, now, op.roll, op.victim).0
    {
      hide Inv, InvUpTo, RandomIndex, Filed, IsVictim, Added, Allowed, Room, Files;
      var b := NewBucket(env, addr.addr.ip, source);
      ghost var t := View();
      FreshReady(t, env, addr, source, nTimePenalty);
      var nId := Create(Fresh(addr, source, nTimePenalty));
      assert View() == Created(t, Fresh(addr, source, nTimePenalty));
      nNew := nNew + 1;
      assert View() == Entered(t, addr, source, nTimePenalty);
      ghost var picks, victim := File(nId, b, now);
      op := Add(addr, source, nTimePenalty, now, 0, picks, victim);
      FreshAllowed(t, env, op);
    }
  
    /** The shuffle over the first nNodes entries of the random vector. */
    method ShuffleOut(nNodes: nat) returns (vAddr: seq<Address>, ghost places: seq<nat>)
      requires RandomIndex(mapInfo, vRandom) && nNodes <= |vRandom|
      modifies this`mapInfo, this`vRandom
      ensures |places| == nNodes && forall k :: 0 <= k < nNodes ==> k <= places[k] < |old(vRandom)|
      ensures View() == Shuffled(old(View()), places)
      ensures |vAddr| == nNodes && Announces(View(), vAddr)
    {
      hide Shuffled, Swapped, RandomIndex, Announces;
      vAddr, places := [], [];
      ghost var t := View();
      NoneShuffled(t);
      for n := 0 to nNodes
        invariant |vAddr| == |places| == n && |vRandom| == |t.random|
        invariant forall k :: 0 <= k < n ==> k <= places[k] < |t.random|
        invariant View() == Shuffled(t, places)
        invariant Announces(View(), vAddr)
      {
        var r := GetRandInt(|vRandom| - n);
        var nRndPos := r + n;
        ShuffleStep(t, places, nRndPos, vAddr);
        SwapRandom(n, nRndPos);
        places := places + [nRndPos];
        vAddr := vAddr + [Announced(mapInfo[vRandom[n]])];
      }
    }

    /** Some addresses at random: a share of them, each at most once. */
    method GetAddr_() returns (vAddr: seq<Address>, ghost places: seq<nat>)
      requires Inv(View(), env)
      modifies this`mapInfo, this`vRandom
      ensures Allowed(old(View()), env, GetAddr(places))
      ensures View() == Shuffled(old(View()), places)
      ensures |vAddr| == NodesToReturn(|vRandom|) && Announces(View(), vAddr)
      ensures forall j, k :: 0 <= j < k < |vAddr| ==> vAddr[j].addr.ip != vAddr[k].addr.ip
    {
      ghost var t := View();
      vAddr, places := ShuffleOut(NodesToReturn(|vRandom|));
      ShuffledKeeps(t, env, places);
      AnnouncesDistinct(View(), env, vAddr);
    }

    // ---------------------------------------------------------------- Check_

    /** The loop over the entries. */
    method CheckEntries() returns (err: int, setTried: set<int>, mapNew: map<int, int>)
      modifies this`mapAddr
      ensures forall ip :: Lookup(mapAddr, ip) == Lookup(old(mapAddr), ip)
      ensures err == 0 <==> forall id :: id in mapInfo ==> EntryOk(id, mapInfo[id], old(mapAddr), vRandom)
      ensures err == 0 ==> setTried == TriedIds(mapInfo) && mapNew.Keys == NewIds(mapInfo)
      ensures err == 0 ==> forall id :: id in mapNew ==> mapNew[id] == mapInfo[id].refCount
    {
      err, setTried, mapNew := 0, {}, map[];
      var rest := mapInfo.Keys;
      while rest != {}
        invariant rest <= mapInfo.Keys && err == 0
        invariant forall ip :: Lookup(mapAddr, ip) == Lookup(old(mapAddr), ip)
        invariant forall id :: id in mapInfo && id !in rest ==> EntryOk(id, mapInfo[id], old(mapAddr), vRandom)
        invariant forall id :: id in setTried <==> id in mapInfo && id !in rest && mapInfo[id].inTried
        invariant forall id :: id in mapNew <==> id in mapInfo && id !in rest && !mapInfo[id].inTried
        invariant forall id :: id in mapNew ==> mapNew[id] == mapInfo[id].refCount
        decreases |rest|
      {
        HasMember(rest);
        var n :| n in rest;
        rest := rest - {n};
        err := CheckEntry(n);
        if err != 0 {
          return;
        }
        if mapInfo[n].inTried {
          setTried := setTried + {n};
        } else {
          mapNew := mapNew[n := mapInfo[n].refCount];
        }
      }
      assert forall id :: id in setTried <==> id in TriedIds(mapInfo);
      assert forall id :: id in mapNew.Keys <==> id in NewIds(mapInfo);
    }

    method CheckEntry(n: int) returns (err: int)
      requires n in mapInfo
      modifies this`mapAddr
      ensures forall ip :: Lookup(mapAddr, ip) == Lookup(old(mapAddr), ip)
      ensures err == 0 <==> EntryOk(n, mapInfo[n], old(mapAddr), vRandom)
    {
      var info := mapInfo[n];
      if info.inTried {
        if info.lastSuccess == 0 { return -1; }
        if info.refCount != 0 { return -2; }
      } else {
        if info.refCount < 0 || info.refCount > NEW_BUCKETS_PER_ADDRESS { return -3; }
        if info.refCount == 0 { return -4; }
      }
      if info.addr.ip !in mapAddr {
        mapAddr := mapAddr[info.addr.ip := 0];
      }
      if mapAddr[info.addr.ip] != n { return -5; }
      if info.randomPos < 0 || info.randomPos >= |vRandom| || vRandom[info.randomPos] != n { return -14; }
      if info.lastTry < 0 { return -6; }
      if info.lastSuccess < 0 { return -8; }
      err := 0;
    }

    /** Cross off the entries of the tried buckets; what is left over stays. */
    method CheckTried(setTriedIn: set<int>) returns (err: int, setTried: set<int>)
      requires setTriedIn == TriedIds(mapInfo)
      ensures err == 0 && setTried == {} <==> TriedMatch(mapInfo, TriedBag(vvTried))
    {
      hide TriedBag;
      err, setTried := 0, setTriedIn;
      ghost var seen: multiset<int> := multiset{};
      TriedBagSteps(vvTried, 0);
      for n := 0 to |vvTried|
        invariant seen == TriedBag(vvTried[..n])
        invariant forall x :: multiset(setTried)[x] + seen[x] == TriedRefs(mapInfo, x)
      {
        TriedBagSteps(vvTried, n);
        var vTried := vvTried[n];
        for i := 0 to |vTried|
          invariant seen == TriedBag(vvTried[..n]) + multiset(vTried[..i])
          invariant forall x :: multiset(setTried)[x] + seen[x] == TriedRefs(mapInfo, x)
        {
          assert vTried[..i + 1] == vTried[..i] + [vTried[i]];
          if vTried[i] !in setTried {
            OneTooMany(vvTried, n, i);
            assert TriedBag(vvTried)[vTried[i]] > TriedRefs(mapInfo, vTried[i]);
            return -11, setTried;
          }
          seen := seen + multiset{vTried[i]};
          setTried := setTried - {vTried[i]};
        }
        assert vTried[..|vTried|] == vTried;
      }
      TriedBagSteps(vvTried, |vvTried|);
      if setTried != {} {
        HasMember(setTried);
        ghost var x :| x in setTried;
        assert TriedBag(vvTried)[x] != TriedRefs(mapInfo, x);
      }
    }

    /** Count the references in one new bucket down. */
    method CheckNewBucket(n: nat, mapNewIn: map<int, int>, ghost seen: multiset<int>)
        returns (err: int, mapNew: map<int, int>)
      requires n < |vvNew| && seen == NewBag(vvNew[..n])
      requires forall x :: x in mapNewIn ==> mapNewIn[x] > 0
      requires forall x :: Left(mapNewIn, x) + seen[x] == NewRefs(mapInfo, x)
      ensures err != 0 ==> exists x :: NewBag(vvNew)[x] > NewRefs(mapInfo, x)
      ensures err == 0 ==> forall x :: x in mapNew ==> mapNew[x] > 0
      ensures err == 0 ==> forall x :: Left(mapNew, x) + (seen + multiset(vvNew[n]))[x] == NewRefs(mapInfo, x)
    {
      err, mapNew := 0, mapNewIn;
      var vNew := vvNew[n];
      var rest := vNew;
      while rest != {}
        invariant rest <= vNew
        invariant forall x :: x in mapNew ==> mapNew[x] > 0
        invariant forall x :: Left(mapNew, x) + (seen + multiset(vNew - rest))[x] == NewRefs(mapInfo, x)
        decreases |rest|
      {
        HasMember(rest);
        var it :| it in rest;
        if it !in mapNew {
          BucketExceeds(vvNew, n, it, NewRefs(mapInfo, it));
          return -12, mapNew;
        }
        assert multiset(vNew - (rest - {it})) == multiset(vNew - rest) + multiset{it};
        rest := rest - {it};
        mapNew := CountDown(mapNew, it);
      }
      assert vNew - rest == vNew;
    }

    /** Count the references in the new buckets down. */
    method CheckNew(mapNewIn: map<int, int>) returns (err: int, mapNew: map<int, int>)
      requires mapNewIn.Keys == NewIds(mapInfo)
      requires forall id :: id in mapNewIn ==> mapNewIn[id] == mapInfo[id].refCount > 0
      ensures err == 0 && mapNew == map[] <==> NewMatch(mapInfo, NewBag(vvNew))
    {
      err, mapNew := 0, mapNewIn;
      ghost var seen: multiset<int> := multiset{};
      for n := 0 to |vvNew|
        invariant seen == NewBag(vvNew[..n])
        invariant forall x :: x in mapNew ==> mapNew[x] > 0
        invariant forall x :: Left(mapNew, x) + seen[x] == NewRefs(mapInfo, x)
      {
        assert vvNew[..n + 1][..n] == vvNew[..n];
        err, mapNew := CheckNewBucket(n, mapNew, seen);
        if err != 0 {
          return;
        }
        seen := seen + multiset(vvNew[n]);
      }
      assert vvNew[..|vvNew|] == vvNew;
      if mapNew != map[] {
        assert mapNew.Keys != {};
        HasMember(mapNew.Keys);
        ghost var x :| x in mapNew.Keys;
        assert NewBag(vvNew)[x] != NewRefs(mapInfo, x);
      }
    }

    /** The consistency check answers 0 exactly when the tables agree. */
    method Check_() returns (err: int)
      modifies this`mapAddr
      ensures err == 0 <==> CheckOk(old(View()))
      ensures forall ip :: Lookup(mapAddr, ip) == Lookup(old(mapAddr), ip)
    {
      if |vRandom| != nTried + nNew { return -7; }
      var setTried, mapNew;
      err, setTried, mapNew := CheckEntries();
      if err != 0 { return; }
      if |setTried| != nTried { return -9; }
      if |mapNew| != nNew { return -10; }
      assert forall id :: id in mapNew ==> EntryOk(id, mapInfo[id], old(mapAddr), vRandom);
      err, setTried := CheckTried(setTried);
      if err != 0 { return; }
      err, mapNew := CheckNew(mapNew);
      if err != 0 { return; }
      if setTried != {} { return -13; }
      if mapNew != map[] { return -15; }
    }
  }

  ghost predicate Announces(t: Tables, vAddr: seq<Address>) {
    && |vAddr| <= |t.random|
    && forall k :: 0 <= k < |vAddr| ==>
         t.random[k] in t.info && vAddr[k] == Announced(t.info[t.random[k]])
  }

  lemma NoneShuffled(t: Tables)
    requires RandomIndex(t.info, t.random)
    ensures Shuffled(t, []) == t && Announces(t, [])
  {
  }

  /** One more round of the shuffle, and the entry it brings to the front. */
  lemma ShuffleStep(t: Tables, places: seq<nat>, pos: nat, vAddr: seq<Address>)
    requires RandomIndex(t.info, t.random) && |places| == |vAddr| <= pos < |t.random|
    requires forall k :: 0 <= k < |places| ==> k <= places[k] < |t.random|
    requires Announces(Shuffled(t, places), vAddr)
    ensures var n, t1 := |places|, Shuffled(t, places);
      t1.random[n] in t1.info && t1.random[pos] in t1.info && Shuffled(t, places + [pos]) == Swapped(t1, n, pos)
    ensures var n, t2 := |places|, Swapped(Shuffled(t, places), |places|, pos);
      && |t2.random| == |t.random| && t2.random[n] in t2.info
      && Announces(t2, vAddr + [Announced(t2.info[t2.random[n]])])
  {
    hide Swapped, RandomIndex, Announces;
    var n, t1 := |places|, Shuffled(t, places);
    SwapIndexes(t1, n, pos);
    AnnouncesSwap(t1, vAddr, pos);
    assert (places + [pos])[..n] == places;
    RandomKnown(t1);
    var t2 := Swapped(t1, n, pos);
    RandomKnown(t2);
    AnnouncesMore(t2, vAddr);
  }

  lemma RandomKnown(t: Tables)
    requires RandomIndex(t.info, t.random)
    ensures forall p :: 0 <= p < |t.random| ==> t.random[p] in t.info
  {
  }

  lemma AnnouncesMore(t: Tables, vAddr: seq<Address>)
    requires Announces(t, vAddr) && |vAddr| < |t.random| && t.random[|vAddr|] in t.info
    ensures Announces(t, vAddr + [Announced(t.info[t.random[|vAddr|]])])
  {
  }

  lemma AnnouncesSwap(t: Tables, vAddr: seq<Address>, p: nat)
    requires RandomIndex(t.info, t.random) && Announces(t, vAddr) && |vAddr| <= p < |t.random|
    ensures Announces(Swapped(t, |vAddr|, p), vAddr)
  {
    SwapReorders(t, |vAddr|, p);
  }

  lemma AnnouncesDistinct(t: Tables, env: Env, vAddr: seq<Address>)
    requires Inv(t, env) && Announces(t, vAddr)
    ensures forall j, k :: 0 <= j < k < |vAddr| ==> vAddr[j].addr.ip != vAddr[k].addr.ip
  {
    forall j, k | 0 <= j < k < |vAddr| ensures vAddr[j].addr.ip != vAddr[k].addr.ip {
      GetAddrDistinct(t, env, j, k);
    }
  }

  function CountDown(m: map<int, int>, x: int): (r: map<int, int>)
    requires x in m && m[x] > 0
    requires forall y :: y in m ==> m[y] > 0
    ensures forall y :: Left(r, y) == if y == x then Left(m, y) - 1 else Left(m, y)
    ensures forall y :: y in r ==> r[y] > 0
  {
    if m[x] - 1 == 0 then m - {x} else m[x := m[x] - 1]
  }

  lemma BucketExceeds(news: seq<set<int>>, n: nat, x: int, refs: int)
    requires n < |news| && x in news[n] && NewBag(news[..n])[x] >= refs
    ensures NewBag(news)[x] > refs
  {
    NewBagPrefix(news, n + 1);
    assert news[..n + 1][..n] == news[..n];
    assert x in multiset(news[n]);
  }

  function Left(m: map<int, int>, x: int): int {
    if x in m then m[x] else 0
  }

  lemma TriedBagSteps(tried: seq<seq<int>>, n: nat)
    requires n <= |tried|
    ensures n == 0 ==> TriedBag(tried[..n]) == multiset{}
    ensures n == |tried| ==> TriedBag(tried[..n]) == TriedBag(tried)
    ensures n < |tried| ==> TriedBag(tried[..n + 1]) == TriedBag(tried[..n]) + multiset(tried[n])
  {
    if n < |tried| {
      assert tried[..n + 1][..n] == tried[..n];
    } else {
      assert tried[..n] == tried;
    }
  }

  /** An element met once more than the buckets up to it hold. */
  lemma OneTooMany(tried: seq<seq<int>>, n: nat, i: nat)
    requires n < |tried| && i < |tried[n]|
    ensures var x := tried[n][i];
      TriedBag(tried)[x] > (TriedBag(tried[..n]) + multiset(tried[n][..i]))[x]
  {
    var t := tried[n];
    assert t == t[..i] + [t[i]] + t[i + 1..];
    TriedBagSteps(tried, n);
    TriedBagPrefix(tried, n + 1);
  }

  lemma {:induction false} TriedBagPrefix(tried: seq<seq<int>>, n: nat)
    requires n <= |tried|
    ensures TriedBag(tried[..n]) <= TriedBag(tried)
  {
    if n < |tried| {
      var m := |tried| - 1;
      assert tried[..m][..n] == tried[..n];
      TriedBagPrefix(tried[..m], n);
    } else {
      assert tried[..n] == tried;
    }
  }

  lemma {:induction false} NewBagPrefix(news: seq<set<int>>, n: nat)
    requires n <= |news|
    ensures NewBag(news[..n]) <= NewBag(news)
  {
    if n < |news| {
      var m := |news| - 1;
      assert news[..m][..n] == news[..n];
      NewBagPrefix(news[..m], n);
    } else {
      assert news[..n] == news;
    }
  }

  /** The choice of a victim does not depend on an entry outside the bucket. */
  lemma VictimElsewhere(t: Tables, t1: Tables, env: Env, b: nat, id: int, now: int, picks: set<nat>, victim: int)
    requires Inv(t, env) && b < |t.news| && id !in t.news[b] && t1.news == t.news
    requires id in t1.info && (t1.info == t.info[id := t1.info[id]])
    requires |t.news[b]| == NEW_BUCKET_SIZE ==>
      (BucketKnown(t, env, b); IsVictim(t1.info, t.news[b], now, picks, victim))
    ensures |t.news[b]| == NEW_BUCKET_SIZE ==> (BucketKnown(t, env, b); IsVictim(t.info, t.news[b], now, picks, victim))
  {
    BucketKnown(t, env, b);
    if |t.news[b]| == NEW_BUCKET_SIZE {
      VictimSame(t.info, t1.info, t.news[b], now, picks, victim);
    }
  }

  lemma CountPrefix(news: seq<set<int>>, k: nat, id: int)
    requires k <= |news|
    ensures k == 0 ==> NewBag(news[..k])[id] == 0
    ensures k < |news| ==> NewBag(news[..k + 1])[id] == NewBag(news[..k])[id] + (if id in news[k] then 1 else 0)
  {
    if k < |news| {
      assert news[..k + 1][..k] == news[..k] && news[..k + 1][k] == news[k];
    }
  }

  /** The tables once a new address has its entry. */
  function Entered(t: Tables, a: Address, source: Ip, penalty: int): Tables {
    Created(t, Fresh(a, source, penalty)).(nNew := t.nNew + 1)
  }

  lemma FreshReady(t: Tables, env: Env, a: Address, source: Ip, penalty: int)
    requires Inv(t, env) && a.addr.ip !in t.addr
    ensures var t1 := Entered(t, a, source, penalty);
      var b := NewBucket(env, a.addr.ip, source);
      && RandomIndex(t1.info, t1.random) && t.idCount in t1.info && t1.news == t.news
      && b < |t.news| == NEW_BUCKET_COUNT && t.idCount !in t.news[b]
      && forall x :: x in t.news[b] ==> x in t1.info && x >= 0
  {
    var b := NewBucket(env, a.addr.ip, source);
    BucketKnown(t, env, b);
    CreatedIndexes(t, Fresh(a, source, penalty));
    FreshUnfiled(t, env, b);
  }

  lemma FreshAllowed(t: Tables, env: Env, op: Op)
    requires Inv(t, env) && op.Add? && op.roll == 0 && env.routable(op.a.addr.ip) && op.a.addr.ip !in t.addr
    requires |t.news| == NEW_BUCKET_COUNT
    requires var b := NewBucket(env, op.a.addr.ip, op.source);
      |t.news[b]| == NEW_BUCKET_SIZE ==>
        (forall x :: x in t.news[b] ==> x in Entered(t, op.a, op.source, op.penalty).info) &&
        IsVictim(Entered(t, op.a, op.source, op.penalty).info, t.news[b], op.now, op.picks, op.victim)
    ensures Allowed(t, env, op)
    ensures RandomIndex(Entered(t, op.a, op.source, op.penalty).info, Entered(t, op.a, op.source, op.penalty).random)
    ensures |t.news[NewBucket(env, op.a.addr.ip, op.source)]| == NEW_BUCKET_SIZE ==>
      op.victim in Entered(t, op.a, op.source, op.penalty).info
    ensures Added(t, env, op.a, op.source, op.penalty, op.now, op.roll, op.victim).0
         == Filed(Entered(t, op.a, op.source, op.penalty), NewBucket(env, op.a.addr.ip, op.source),
                  t.idCount, op.victim)
  {
    var b := NewBucket(env, op.a.addr.ip, op.source);
    FreshReady(t, env, op.a, op.source, op.penalty);
    BucketKnown(t, env, b);
    VictimElsewhere(t, Entered(t, op.a, op.source, op.penalty), env, b, t.idCount, op.now, op.picks, op.victim);
  }

  lemma FreshUnfiled(t: Tables, env: Env, b: nat)
    requires Inv(t, env) && b < |t.news|
    ensures t.idCount !in t.news[b]
  {
    if t.idCount in t.news[b] {
      NewMember(t.info, t.news, multiset{}, b, t.idCount);
    }
  }

  /** The k-th bucket when counting from a random one. */
  function Around(k: nat, start: nat, n: nat): (b: nat)
    requires k < n && start < n
    ensures b < n
    ensures b == if k + start < n then k + start else k + start - n
  {
    (k + start) % n
  }

  method Least(s: set<int>) returns (m: int)
    requires s != {}
    ensures m in s && forall x :: x in s ==> m <= x
  {
    HasMember(s);
    m :| m in s;
    var rest := s - {m};
    while rest != {}
      invariant rest <= s && m in s
      invariant forall x :: x in s ==> x in rest || m <= x
      decreases |rest|
    {
      HasMember(rest);
      var x :| x in rest;
      rest := rest - {x};
      if x < m {
        m := x;
      }
    }
  }

  // ---------------------------------------------------------------- the eviction

  /** Marking this service as good needs room in its tried bucket. */
  predicate Evicts(t: Tables, env: Env, s: Service) {
    && Known(t, s) && !t.info[IdOf(t, s)].inTried
    && TriedBucket(env, s) < |t.tried| && |t.tried[TriedBucket(env, s)]| >= TRIED_BUCKET_SIZE
  }

  lemma PickedFits(info: InfoMap, s: seq<int>, places: seq<nat>, shuffled: seq<int>, pos: int)
    requires Picked(info, s, places, shuffled, pos) && s != []
    ensures 0 <= pos && Shuffle(s, shuffled, pos)
  {
    PositionFits(info, s, places);
  }

  lemma PickedBefore(t: Tables, id: int, s: seq<int>, places: seq<nat>, shuffled: seq<int>, pos: int)
    requires id in t.info && Picked(Uncounted(t, id).info, s, places, shuffled, pos)
    ensures Picked(t.info, s, places, shuffled, pos)
  {
    hide Picked;
    PickedSame(Uncounted(t, id).info, t.info, s, places, shuffled, pos);
  }

  lemma PickedUnmarked(t: Tables, env: Env, a: Service, time: int, info: InfoMap,
                       places: seq<nat>, shuffled: seq<int>, pos: int)
    requires Inv(t, env) && Evicts(t, env, a)
    requires info == t.info[IdOf(t, a) := MarkedGood(t.info[IdOf(t, a)], time)]
    requires Picked(info, t.tried[TriedBucket(env, a)], places, shuffled, pos)
    ensures Picked(t.info, t.tried[TriedBucket(env, a)], places, shuffled, pos)
  {
    hide Picked, Inv;
    var s := t.tried[TriedBucket(env, a)];
    TriedKnown(t, env, TriedBucket(env, a));
    PickedSame(info, t.info, s, places, shuffled, pos);
  }

  lemma RankOfLeast(bucket: set<int>, rest: set<int>, it: int)
    requires rest <= bucket && it in rest && forall x :: x in rest ==> it <= x
    requires forall x, y :: x in bucket && x !in rest && y in rest ==> x < y
    ensures Rank(bucket, it) == |bucket| - |rest|
  {
    assert (set x | x in bucket && x < it) == bucket - rest;
  }

  lemma VictimSame(info: InfoMap, info': InfoMap, bucket: set<int>, now: int, picks: set<nat>, id: int)
    requires forall x :: x in bucket ==> x in info && x in info' && info'[x] == info[x]
    requires IsVictim(info', bucket, now, picks, id)
    ensures IsVictim(info, bucket, now, picks, id)
  {
  }

  lemma TriedKnown(t: Tables, env: Env, b: nat)
    requires Inv(t, env) && b < |t.tried|
    ensures forall x :: x in t.tried[b] ==> x in t.info && x >= 0 && t.info[x].inTried
  {
    forall i | 0 <= i < |t.tried[b]|
      ensures t.tried[b][i] in t.info && t.tried[b][i] >= 0 && t.info[t.tried[b][i]].inTried
    {
      TriedMember(t.info, t.tried, b, i);
    }
  }

  lemma LastReference(t: Tables, env: Env, id: int, origin: nat)
    requires Inv(t, env) && id in t.info && !t.info[id].inTried
    ensures Uncounted(t, id).info[id].refCount == 0
  {
    assert (NewBag(t.news) + multiset{})[id] == NewRefs(t.info, id);
  }
}
