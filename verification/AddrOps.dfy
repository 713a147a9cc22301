/** The operations of src/addrman.cpp on the tables, and the proof that every
    one of them keeps the tables consistent.  Random choices are parameters. */
module AddrOps {
  import opened AddrTables

  // ---------------------------------------------------------------- touching one entry

  /** The two entries play the same part in every table but the random vector. */
  predicate SameRole(i: Info, j: Info) {
    i.addr == j.addr && i.refCount == j.refCount && i.inTried == j.inTried
  }

  ghost predicate SameRoles(info: InfoMap, info': InfoMap) {
    info'.Keys == info.Keys && forall id :: id in info ==> SameRole(info[id], info'[id])
  }

  lemma RolesCount(info: InfoMap, info': InfoMap)
    requires SameRoles(info, info')
    ensures TriedIds(info') == TriedIds(info) && NewIds(info') == NewIds(info)
  {
    forall id ensures id in TriedIds(info') <==> id in TriedIds(info) {
      if id in info { assert SameRole(info[id], info'[id]); }
    }
    forall id ensures id in NewIds(info') <==> id in NewIds(info) {
      if id in info { assert SameRole(info[id], info'[id]); }
    }
  }

  lemma RolesPlace(env: Env, info: InfoMap, info': InfoMap, tried: seq<seq<int>>)
    requires SameRoles(info, info') && Placed(env, info, tried)
    ensures Placed(env, info', tried)
  {
    forall b, i | 0 <= b < |tried| && 0 <= i < |tried[b]|
      ensures tried[b][i] in info' && TriedBucket(env, info'[tried[b][i]].addr) == b
    {
      var id := tried[b][i];
      assert SameRole(info[id], info'[id]);
    }
  }

  lemma RolesKeep(t: Tables, t': Tables, env: Env, extra: multiset<int>)
    requires InvUpTo(t, env, extra)
    requires t' == t.(info := t'.info, random := t'.random)
    requires SameRoles(t.info, t'.info) && RandomIndex(t'.info, t'.random)
    ensures InvUpTo(t', env, extra)
  {
    RolesCount(t.info, t'.info);
    RolesPlace(env, t.info, t'.info, t.tried);
    assert forall id :: NewRefs(t'.info, id) == NewRefs(t.info, id);
    assert forall id :: TriedRefs(t'.info, id) == TriedRefs(t.info, id);
  }

  function Touched(t: Tables, id: int, i: Info): Tables {
    t.(info := t.info[id := i])
  }

  /** Recording times, attempts or services changes nothing else. */
  lemma TouchKeeps(t: Tables, env: Env, extra: multiset<int>, id: int, i: Info)
    requires InvUpTo(t, env, extra) && id in t.info
    requires SameRole(t.info[id], i) && i.randomPos == t.info[id].randomPos
    ensures InvUpTo(Touched(t, id, i), env, extra)
  {
    RolesKeep(t, Touched(t, id, i), env, extra);
  }

  // ---------------------------------------------------------------- SwapRandom

  function Swapped(t: Tables, p1: nat, p2: nat): Tables
    requires p1 < |t.random| && p2 < |t.random|
    requires t.random[p1] in t.info && t.random[p2] in t.info
  {
    if p1 == p2 then t else
    var id1, id2 := t.random[p1], t.random[p2];
    var info1 := t.info[id1 := t.info[id1].(randomPos := p2)];
    t.(info := info1[id2 := info1[id2].(randomPos := p1)], random := t.random[p1 := id2][p2 := id1])
  }

  lemma SwapKeeps(t: Tables, env: Env, extra: multiset<int>, p1: nat, p2: nat)
    requires InvUpTo(t, env, extra) && p1 < |t.random| && p2 < |t.random|
    ensures InvUpTo(Swapped(t, p1, p2), env, extra)
  {
    if p1 != p2 {
      var id1, id2 := t.random[p1], t.random[p2];
      assert t.info[id1].randomPos == p1 && t.info[id2].randomPos == p2;
      RolesKeep(t, Swapped(t, p1, p2), env, extra);
    }
  }

  // ---------------------------------------------------------------- dropping a reference

  /** Swap to the end of the random vector, pop, and erase from both maps. */
  function Erased(t: Tables, id: int): Tables
    requires RandomIndex(t.info, t.random) && id in t.info
  {
    var last := |t.random| - 1;
    var t1 := Swapped(t, t.info[id].randomPos, last);
    t1.(random := t1.random[..last], addr := t1.addr - {t.info[id].addr.ip}, info := t1.info - {id},
        nNew := t1.nNew - 1)
  }

  lemma EraseRoles(t: Tables, id: int)
    requires RandomIndex(t.info, t.random) && id in t.info
    ensures SameRoles(t.info - {id}, Erased(t, id).info)
  {
  }

  lemma EraseAddr(info: InfoMap, info': InfoMap, addr: map<Ip, int>, id: int)
    requires AddrIndex(info, addr) && id in info && SameRoles(info - {id}, info')
    ensures AddrIndex(info', addr - {info[id].addr.ip})
  {
    var addr' := addr - {info[id].addr.ip};
    forall x | x in info' ensures info'[x].addr.ip in addr' && addr'[info'[x].addr.ip] == x {
      assert SameRole((info - {id})[x], info'[x]);
    }
    forall ip | ip in addr' ensures addr'[ip] in info' && info'[addr'[ip]].addr.ip == ip {
      assert addr[ip] != id;
      assert SameRole((info - {id})[addr[ip]], info'[addr[ip]]);
    }
  }

  lemma EraseRandom(t: Tables, id: int)
    requires RandomIndex(t.info, t.random) && id in t.info
    ensures RandomIndex(Erased(t, id).info, Erased(t, id).random)
  {
    hide RandomIndex;
    AtItsPosition(t, id);
    var last := |t.random| - 1;
    var t1 := Swapped(t, t.info[id].randomPos, last);
    SwapIndexes(t, t.info[id].randomPos, last);
    assert t1.random[last] == id;
    LastErased(t1.info, t1.random);
  }

  lemma AtItsPosition(t: Tables, id: int)
    requires RandomIndex(t.info, t.random) && id in t.info
    ensures 0 <= t.info[id].randomPos < |t.random| && t.random[t.info[id].randomPos] == id
    ensures t.random[|t.random| - 1] in t.info
  {
  }

  lemma SwapIndexes(t: Tables, p1: nat, p2: nat)
    requires RandomIndex(t.info, t.random) && p1 < |t.random| && p2 < |t.random|
    ensures RandomIndex(Swapped(t, p1, p2).info, Swapped(t, p1, p2).random)
    ensures |Swapped(t, p1, p2).random| == |t.random|
  {
    assert t.info[t.random[p1]].randomPos == p1 && t.info[t.random[p2]].randomPos == p2;
  }

  lemma LastErased(info: InfoMap, random: seq<int>)
    requires RandomIndex(info, random) && random != []
    ensures RandomIndex(info - {random[|random| - 1]}, random[..|random| - 1])
  {
  }

  /** One reference of `id` leaves new bucket b, and the entry with the last. */
  function Dropped(t: Tables, b: nat, id: int): Tables
    requires RandomIndex(t.info, t.random) && id in t.info && b < |t.news|
  {
    var i := t.info[id];
    var t1 := if i.refCount == 1 then Erased(t, id) else Touched(t, id, i.(refCount := i.refCount - 1));
    t1.(news := t.news[b := t.news[b] - {id}])
  }

  /** Entries other than `id` keep their roles. */
  lemma DropRoles(t: Tables, b: nat, id: int)
    requires RandomIndex(t.info, t.random) && id in t.info && b < |t.news|
    ensures SameRoles(t.info - {id}, Dropped(t, b, id).info - {id})
    ensures id in Dropped(t, b, id).info <==> t.info[id].refCount != 1
    ensures t.info[id].refCount != 1 ==>
      Dropped(t, b, id).info[id] == t.info[id].(refCount := t.info[id].refCount - 1)
  {
    if t.info[id].refCount == 1 {
      EraseRoles(t, id);
      assert Erased(t, id).info - {id} == Erased(t, id).info;
    }
  }

  lemma DropCounts(info: InfoMap, info': InfoMap, id: int)
    requires id in info && !info[id].inTried && SameRoles(info - {id}, info' - {id})
    requires id in info' ==> !info'[id].inTried
    ensures TriedIds(info') == TriedIds(info)
    ensures NewIds(info') == if id in info' then NewIds(info) else NewIds(info) - {id}
  {
    var rest, rest' := info - {id}, info' - {id};
    forall x | x != id
      ensures x in TriedIds(info') <==> x in TriedIds(info)
      ensures x in NewIds(info') <==> x in NewIds(info)
    {
      assert x in info <==> x in rest;
      assert x in info' <==> x in rest';
      if x in rest { assert SameRole(rest[x], rest'[x]); }
    }
  }

  lemma DropRange(info: InfoMap, info': InfoMap, id: int, idCount: int)
    requires RefRange(info) && IdsBelow(info, idCount)
    requires id in info && !info[id].inTried && SameRoles(info - {id}, info' - {id})
    requires id in info' ==> !info'[id].inTried && info'[id].refCount == info[id].refCount - 1 != 0
    ensures RefRange(info') && IdsBelow(info', idCount)
  {
    var rest, rest' := info - {id}, info' - {id};
    forall x | x in info' && x != id ensures x in info && SameRole(info[x], info'[x]) {
      assert x in rest';
      assert SameRole(rest[x], rest'[x]);
    }
  }

  lemma DropBags(info: InfoMap, info': InfoMap, bag: multiset<int>, bag': multiset<int>, tried: multiset<int>, id: int)
    requires NewMatch(info, bag) && TriedMatch(info, tried)
    requires id in info && !info[id].inTried && SameRoles(info - {id}, info' - {id})
    requires if info[id].refCount == 1 then id !in info'
             else id in info' && !info'[id].inTried && info'[id].refCount == info[id].refCount - 1
    requires id in bag && bag' == bag - multiset{id}
    ensures NewMatch(info', bag') && TriedMatch(info', tried)
  {
    var rest, rest' := info - {id}, info' - {id};
    forall x
      ensures bag'[x] == NewRefs(info', x)
      ensures tried[x] == TriedRefs(info', x)
    {
      assert bag[x] == NewRefs(info, x) && tried[x] == TriedRefs(info, x);
      if x != id {
        assert x in info <==> x in rest;
        assert x in info' <==> x in rest';
        if x in rest { assert SameRole(rest[x], rest'[x]); }
      }
    }
  }

  lemma DropPlaces(env: Env, info: InfoMap, info': InfoMap, tried: seq<seq<int>>, id: int)
    requires TriedMatch(info, TriedBag(tried)) && Placed(env, info, tried)
    requires id in info && !info[id].inTried && SameRoles(info - {id}, info' - {id})
    ensures Placed(env, info', tried)
  {
    var rest, rest' := info - {id}, info' - {id};
    forall c, i | 0 <= c < |tried| && 0 <= i < |tried[c]|
      ensures tried[c][i] in info' && TriedBucket(env, info'[tried[c][i]].addr) == c
    {
      TriedMember(info, tried, c, i);
      var x := tried[c][i];
      assert x in rest && SameRole(rest[x], rest'[x]);
    }
  }

  lemma DropIndexes(t: Tables, b: nat, id: int)
    requires RandomIndex(t.info, t.random) && AddrIndex(t.info, t.addr) && id in t.info && b < |t.news|
    ensures RandomIndex(Dropped(t, b, id).info, Dropped(t, b, id).random)
    ensures AddrIndex(Dropped(t, b, id).info, Dropped(t, b, id).addr)
  {
    if t.info[id].refCount == 1 {
      EraseRandom(t, id);
      EraseRoles(t, id);
      EraseAddr(t.info, Erased(t, id).info, t.addr, id);
    }
  }

  /** ShrinkNew's effect, whatever entry of the bucket it settles on. */
  lemma DropKeeps(t: Tables, env: Env, extra: multiset<int>, b: nat, id: int)
    requires InvUpTo(t, env, extra) && b < |t.news| && id in t.news[b]
    ensures id in t.info && InvUpTo(Dropped(t, b, id), env, extra)
  {
    NewMember(t.info, t.news, extra, b, id);
    var t' := Dropped(t, b, id);
    DropRoles(t, b, id);
    assert NewMatch(t'.info, NewBag(t'.news) + extra) && TriedMatch(t'.info, TriedBag(t'.tried)) by {
      NewBagUpdate(t.news, b, t.news[b] - {id});
      assert NewBag(t'.news) + extra == NewBag(t.news) + extra - multiset{id};
      DropBags(t.info, t'.info, NewBag(t.news) + extra, NewBag(t'.news) + extra, TriedBag(t.tried), id);
    }
    assert Counts(t'.info, t'.nTried, t'.nNew) by { DropCounts(t.info, t'.info, id); }
    assert RefRange(t'.info) && IdsBelow(t'.info, t'.idCount) by { DropRange(t.info, t'.info, id, t.idCount); }
    assert Placed(env, t'.info, t'.tried) by { DropPlaces(env, t.info, t'.info, t.tried, id); }
    DropIndexes(t, b, id);
  }

  // ---------------------------------------------------------------- gaining a reference

  function Counted(t: Tables, id: int): Tables
    requires id in t.info
  {
    Touched(t, id, t.info[id].(refCount := t.info[id].refCount + 1))
  }

  lemma CountedKeeps(t: Tables, env: Env, id: int)
    requires Inv(t, env) && id in t.info && !t.info[id].inTried
    requires t.info[id].refCount < NEW_BUCKETS_PER_ADDRESS
    ensures InvUpTo(Counted(t, id), env, multiset{id})
  {
    hide NewBag, TriedBag, TriedBucket;
    var t' := Counted(t, id);
    forall x ensures (NewBag(t.news) + multiset{id})[x] == NewRefs(t'.info, x) {
      assert (NewBag(t.news) + multiset{})[x] == NewRefs(t.info, x);
    }
    forall x ensures TriedBag(t.tried)[x] == TriedRefs(t'.info, x) {
      assert TriedBag(t.tried)[x] == TriedRefs(t.info, x);
    }
    assert TriedIds(t'.info) == TriedIds(t.info) && NewIds(t'.info) == NewIds(t.info);
    forall b, i | 0 <= b < |t.tried| && 0 <= i < |t.tried[b]|
      ensures t.tried[b][i] in t'.info && TriedBucket(env, t'.info[t.tried[b][i]].addr) == b
    {
      TriedMember(t.info, t.tried, b, i);
    }
  }

  function Inserted(t: Tables, b: nat, id: int): Tables
    requires b < |t.news|
  {
    t.(news := t.news[b := t.news[b] + {id}])
  }

  lemma InsertKeeps(t: Tables, env: Env, b: nat, id: int)
    requires InvUpTo(t, env, multiset{id}) && b < |t.news|
    requires id !in t.news[b] && |t.news[b]| < NEW_BUCKET_SIZE
    ensures Inv(Inserted(t, b, id), env)
  {
    var t' := Inserted(t, b, id);
    NewBagUpdate(t.news, b, t.news[b] + {id});
    assert multiset(t.news[b] + {id}) == multiset(t.news[b]) + multiset{id};
    assert NewBag(t'.news) + multiset{} == NewBag(t.news) + multiset{id};
  }

  /** Create: a fresh id, entered in both maps and at the end of the vector. */
  function Created(t: Tables, i: Info): Tables {
    t.(idCount := t.idCount + 1, info := t.info[t.idCount := i.(randomPos := |t.random|)],
       addr := t.addr[i.addr.ip := t.idCount], random := t.random + [t.idCount])
  }

  lemma CreatedIndexes(t: Tables, i: Info)
    requires IdsBelow(t.info, t.idCount) && AddrIndex(t.info, t.addr) && RandomIndex(t.info, t.random)
    requires i.addr.ip !in t.addr
    ensures IdsBelow(Created(t, i).info, Created(t, i).idCount)
    ensures AddrIndex(Created(t, i).info, Created(t, i).addr)
    ensures RandomIndex(Created(t, i).info, Created(t, i).random)
  {
  }

  lemma CreatedKeeps(t: Tables, env: Env, i: Info)
    requires Inv(t, env) && i.addr.ip !in t.addr && !i.inTried && i.refCount == 1
    ensures InvUpTo(Created(t, i).(nNew := t.nNew + 1), env, multiset{t.idCount})
  {
    hide AddrIndex, RandomIndex, Placed, Sizes, NewBag, TriedBag;
    var id := t.idCount;
    var t' := Created(t, i).(nNew := t.nNew + 1);
    assert id !in t.info;
    CreatedIndexes(t, i);
    assert NewBag(t.news) + multiset{} == NewBag(t.news);
    CreatedMatch(t.info, t'.info, id, NewBag(t.news), TriedBag(t.tried));
    assert TriedIds(t'.info) == TriedIds(t.info) && NewIds(t'.info) == NewIds(t.info) + {id};
    assert Placed(env, t'.info, t'.tried) by { CreatedPlaces(env, t.info, t'.info, t.tried, id); }
  }

  lemma CreatedMatch(info: InfoMap, info': InfoMap, id: int, news: multiset<int>, tried: multiset<int>)
    requires id !in info && id in info' && info' == info[id := info'[id]]
    requires !info'[id].inTried && info'[id].refCount == 1 && NewMatch(info, news) && TriedMatch(info, tried)
    ensures NewMatch(info', news + multiset{id}) && TriedMatch(info', tried)
  {
    forall x
      ensures (news + multiset{id})[x] == NewRefs(info', x) && tried[x] == TriedRefs(info', x)
    {
      assert news[x] == NewRefs(info, x) && tried[x] == TriedRefs(info, x);
    }
  }

  lemma CreatedPlaces(env: Env, info: InfoMap, info': InfoMap, tried: seq<seq<int>>, id: int)
    requires Placed(env, info, tried) && id !in info && id in info' && info' == info[id := info'[id]]
    ensures Placed(env, info', tried)
  {
    forall b, i | 0 <= b < |tried| && 0 <= i < |tried[b]|
      ensures tried[b][i] in info' && TriedBucket(env, info'[tried[b][i]].addr) == b
    {
      var x := tried[b][i];
      assert x in info && x != id;
    }
  }

  // ---------------------------------------------------------------- Add_

  /** An address as announced: its service, what it offers, and when it was seen. */
  datatype Address = Address(addr: Service, services: set<nat>, time: nat)

  function Announced(i: Info): Address { Address(i.addr, i.services, i.time) }

  function AsUint32(x: int): nat { x % 0x1_0000_0000 }
  function Max(x: int, y: int): int { if x < y then y else x }

  /** Update of a known entry's time and services. */
  function Refreshed(i: Info, a: Address, penalty: int, now: int): Info {
    var online := now - a.time < 24 * 60 * 60;
    var interval := if online then 60 * 60 else 24 * 60 * 60;
    var stale := a.time != 0 && (i.time == 0 || i.time < a.time - interval - penalty);
    i.(time := if stale then AsUint32(Max(0, a.time - penalty)) else i.time, services := i.services + a.services)
  }

  function Pow2(n: int): (r: int)
    ensures r >= 1
  {
    if n <= 0 then 1 else 2 * Pow2(n - 1)
  }

  /** The four early returns for a known address; `roll` is the random number
      below 2 to the refCount. */
  predicate Declined(i: Info, a: Address, roll: nat) {
    || a.time == 0 || (i.time != 0 && a.time <= i.time)
    || i.inTried
    || i.refCount == NEW_BUCKETS_PER_ADDRESS
    || (Pow2(i.refCount) > 1 && roll != 0)
  }

  function Fresh(a: Address, source: Ip, penalty: int): Info {
    Info(a.addr, a.services, AsUint32(Max(0, a.time - penalty)), source, 0, 0, 0, 0, false, -1)
  }

  /** The bucket for `id` and, when it is full, `victim` making way. */
  function Filed(t: Tables, b: nat, id: int, victim: int): Tables
    requires RandomIndex(t.info, t.random) && id in t.info && b < |t.news|
    requires |t.news[b]| == NEW_BUCKET_SIZE ==> victim in t.info
  {
    if id in t.news[b] then t
    else
      var t1 := Counted(t, id);
      Inserted(if |t.news[b]| == NEW_BUCKET_SIZE then Dropped(t1, b, victim) else t1, b, id)
  }

  /** Whether the bucket can take one more, once `victim` has left a full one. */
  ghost predicate Room(t: Tables, b: nat, victim: int) {
    b < |t.news| && (|t.news[b]| < NEW_BUCKET_SIZE || victim in t.news[b])
  }

  ghost function Added(t: Tables, env: Env, a: Address, source: Ip, penalty: int, now: int, roll: nat, victim: int)
      : (Tables, bool)
    requires Inv(t, env) && Room(t, NewBucket(env, a.addr.ip, source), victim)
  {
    var b := NewBucket(env, a.addr.ip, source);
    assert |t.news[b]| == NEW_BUCKET_SIZE ==> victim in t.info by {
      if victim in t.news[b] { NewMember(t.info, t.news, multiset{}, b, victim); }
    }
    if !env.routable(a.addr.ip) then (t, false)
    else if a.addr.ip in t.addr then
      var id := t.addr[a.addr.ip];
      var i := Refreshed(t.info[id], a, penalty, now);
      var t1 := Touched(t, id, i);
      if Declined(i, a, roll) then (t1, false) else (Filed(t1, b, id, victim), false)
    else
      var t1 := Created(t, Fresh(a, source, penalty)).(nNew := t.nNew + 1);
      CreatedIndexes(t, Fresh(a, source, penalty));
      (Filed(t1, b, t.idCount, victim), true)
  }

  /** From the moment the reference is counted, the rest of Add_ is sound. */
  lemma FiledKeeps(t: Tables, env: Env, b: nat, id: int, victim: int)
    requires InvUpTo(t, env, multiset{id}) && Room(t, b, victim) && id !in t.news[b]
    ensures |t.news[b]| == NEW_BUCKET_SIZE ==> victim in t.info
    ensures Inv(Inserted(if |t.news[b]| == NEW_BUCKET_SIZE then Dropped(t, b, victim) else t, b, id), env)
  {
    if |t.news[b]| == NEW_BUCKET_SIZE {
      DropKeeps(t, env, multiset{id}, b, victim);
      InsertKeeps(Dropped(t, b, victim), env, b, id);
    } else {
      InsertKeeps(t, env, b, id);
    }
  }

  lemma AddedKnown(t: Tables, env: Env, a: Address, source: Ip, penalty: int, now: int, roll: nat, victim: int)
    requires Inv(t, env) && Room(t, NewBucket(env, a.addr.ip, source), victim)
    requires a.addr.ip in t.addr
    ensures Inv(Added(t, env, a, source, penalty, now, roll, victim).0, env)
  {
    var b := NewBucket(env, a.addr.ip, source);
    var id := t.addr[a.addr.ip];
    var i := Refreshed(t.info[id], a, penalty, now);
    var t1 := Touched(t, id, i);
    TouchKeeps(t, env, multiset{}, id, i);
    if !Declined(i, a, roll) && id !in t.news[b] {
      CountedKeeps(t1, env, id);
      FiledKeeps(Counted(t1, id), env, b, id, victim);
    }
  }

  lemma AddedFresh(t: Tables, env: Env, a: Address, source: Ip, penalty: int, now: int, roll: nat, victim: int)
    requires Inv(t, env) && Room(t, NewBucket(env, a.addr.ip, source), victim)
    requires a.addr.ip !in t.addr
    ensures Inv(Added(t, env, a, source, penalty, now, roll, victim).0, env)
  {
    var b, id := NewBucket(env, a.addr.ip, source), t.idCount;
    var i := Fresh(a, source, penalty);
    var t1 := Created(t, i).(nNew := t.nNew + 1);
    CreatedKeeps(t, env, i.(refCount := 1));
    assert Counted(t1, id) == Created(t, i.(refCount := 1)).(nNew := t.nNew + 1) by {
      assert t.info[id := i.(randomPos := |t.random|)][id := i.(randomPos := |t.random|, refCount := 1)]
          == t.info[id := i.(randomPos := |t.random|, refCount := 1)];
    }
    if id in t.news[b] {
      NewMember(t.info, t.news, multiset{}, b, id);
    }
    FiledKeeps(Counted(t1, id), env, b, id, victim);
  }

  /** Add_ keeps the tables consistent, whatever entry makes way. */
  lemma AddedKeeps(t: Tables, env: Env, a: Address, source: Ip, penalty: int, now: int, roll: nat, victim: int)
    requires Inv(t, env) && Room(t, NewBucket(env, a.addr.ip, source), victim)
    ensures Inv(Added(t, env, a, source, penalty, now, roll, victim).0, env)
  {
    if a.addr.ip in t.addr {
      AddedKnown(t, env, a, source, penalty, now, roll, victim);
    } else {
      AddedFresh(t, env, a, source, penalty, now, roll, victim);
    }
  }

  // ---------------------------------------------------------------- ShrinkNew's choice

  /** Whether the statistics of an entry are bad enough to delete it. */
  predicate IsTerrible(i: Info, now: int) {
    !(i.lastTry != 0 && i.lastTry >= now - 60) &&
    (|| i.time > now + 10 * 60
     || i.time == 0 || now - i.time > 30 * 86400
     || (i.lastSuccess == 0 && i.attempts >= 3)
     || (now - i.lastSuccess > 7 * 86400 && i.attempts >= 10))
  }

  /** The place of an id in the bucket's ascending order. */
  function Rank(s: set<int>, id: int): nat {
    |set x | x in s && x < id|
  }

  /** The first terrible entry if there is one; otherwise the one seen longest
      ago among those at the four random places, the first of equals. */
  ghost predicate IsVictim(info: InfoMap, bucket: set<int>, now: int, picks: set<nat>, id: int)
    requires forall x :: x in bucket ==> x in info
  {
    && id in bucket
    && if exists x :: x in bucket && IsTerrible(info[x], now) then
         IsTerrible(info[id], now) && forall x :: x in bucket && IsTerrible(info[x], now) ==> id <= x
       else
         Rank(bucket, id) in picks
         && forall x :: x in bucket && Rank(bucket, x) in picks ==>
              info[id].time < info[x].time || (info[id].time == info[x].time && id <= x)
  }

  // ---------------------------------------------------------------- MakeTried and Good_

  /** `id` leaves every new bucket; the last reference is gone. */
  function Uncounted(t: Tables, id: int): Tables
    requires id in t.info
  {
    t.(news := Without(t.news, id), nNew := t.nNew - 1,
       info := t.info[id := t.info[id].(refCount := t.info[id].refCount - NewBag(t.news)[id])])
  }

  /** `id` enters the end of tried bucket b. */
  function Promoted(t: Tables, b: nat, id: int): Tables
    requires id in t.info && b < |t.tried|
  {
    t.(tried := t.tried[b := t.tried[b] + [id]], nTried := t.nTried + 1,
       info := t.info[id := t.info[id].(inTried := true)])
  }

  /** `id` takes the place of `evicted`, which goes to new bucket `back`;
      `shuffled` is the tried bucket as SelectTried left it. */
  function Exchanged(t: Tables, b: nat, shuffled: seq<int>, pos: nat, back: nat, id: int): Tables
    requires pos < |shuffled| && b < |t.tried| && back < |t.news| && id in t.info && shuffled[pos] in t.info
  {
    var evicted := shuffled[pos];
    var info1 := t.info[evicted := t.info[evicted].(inTried := false, refCount := 1)];
    t.(tried := t.tried[b := shuffled[pos := id]], news := t.news[back := t.news[back] + {evicted}],
       nNew := t.nNew + 1, info := info1[id := info1[id].(inTried := true)])
  }

  /** SelectTried permutes the bucket and returns a position in it. */
  ghost predicate Shuffle(bucket: seq<int>, shuffled: seq<int>, pos: nat) {
    multiset(shuffled) == multiset(bucket) && pos < |shuffled|
  }

  ghost function MadeTried(t: Tables, env: Env, id: int, origin: nat, shuffled: seq<int>, pos: nat): Tables
    requires Inv(t, env) && id in t.info && origin < |t.news|
    requires Shuffle(t.tried[TriedBucket(env, t.info[id].addr)], shuffled, pos)
          || |t.tried[TriedBucket(env, t.info[id].addr)]| < TRIED_BUCKET_SIZE
  {
    var t1 := Uncounted(t, id);
    var b := TriedBucket(env, t.info[id].addr);
    if |t.tried[b]| < TRIED_BUCKET_SIZE then Promoted(t1, b, id)
    else
      ShuffledMember(t, env, b, shuffled, pos);
      var home := t.info[shuffled[pos]];
      var u := NewBucket(env, home.addr.ip, home.source);
      Exchanged(t1, b, shuffled, pos, if |t1.news[u]| < NEW_BUCKET_SIZE then u else origin, id)
  }

  lemma ShuffledMember(t: Tables, env: Env, b: nat, shuffled: seq<int>, pos: nat)
    requires Inv(t, env) && b < |t.tried| && Shuffle(t.tried[b], shuffled, pos)
    ensures shuffled[pos] in t.info && t.info[shuffled[pos]].inTried
  {
    assert shuffled[pos] in multiset(shuffled);
    assert shuffled[pos] in multiset(t.tried[b]);
    var i :| 0 <= i < |t.tried[b]| && t.tried[b][i] == shuffled[pos];
    TriedMember(t.info, t.tried, b, i);
  }

  /** What leaving the new tables and entering the tried ones does to the roles. */
  ghost predicate MovesIn(info: InfoMap, info': InfoMap, id: int) {
    && id in info && !info[id].inTried
    && info' == info[id := info[id].(refCount := 0, inTried := true)]
  }

  ghost predicate MovesOut(info: InfoMap, info': InfoMap, id: int) {
    && id in info && info[id].inTried
    && info' == info[id := info[id].(refCount := 1, inTried := false)]
  }

  lemma MoveInMatch(info: InfoMap, info': InfoMap, id: int, news: multiset<int>, tried: multiset<int>)
    requires MovesIn(info, info', id) && NewMatch(info, news) && TriedMatch(info, tried)
    ensures NewMatch(info', news[id := 0]) && TriedMatch(info', tried + multiset{id})
  {
    forall x
      ensures news[id := 0][x] == NewRefs(info', x)
      ensures (tried + multiset{id})[x] == TriedRefs(info', x)
    {
      assert news[x] == NewRefs(info, x) && tried[x] == TriedRefs(info, x);
    }
  }

  lemma MoveOutMatch(info: InfoMap, info': InfoMap, id: int, news: multiset<int>, tried: multiset<int>)
    requires MovesOut(info, info', id) && NewMatch(info, news) && TriedMatch(info, tried)
    requires RefRange(info)
    ensures NewMatch(info', news + multiset{id}) && TriedMatch(info', tried - multiset{id})
  {
    forall x
      ensures (news + multiset{id})[x] == NewRefs(info', x)
      ensures (tried - multiset{id})[x] == TriedRefs(info', x)
    {
      assert news[x] == NewRefs(info, x) && tried[x] == TriedRefs(info, x);
    }
  }

  lemma MoveInCounts(info: InfoMap, info': InfoMap, id: int, nTried: int, nNew: int)
    requires MovesIn(info, info', id) && Counts(info, nTried, nNew)
    ensures Counts(info', nTried + 1, nNew - 1)
  {
    assert TriedIds(info') == TriedIds(info) + {id} && NewIds(info') == NewIds(info) - {id};
  }

  lemma MoveOutCounts(info: InfoMap, info': InfoMap, id: int, nTried: int, nNew: int)
    requires MovesOut(info, info', id) && Counts(info, nTried, nNew)
    ensures Counts(info', nTried - 1, nNew + 1)
  {
    assert TriedIds(info') == TriedIds(info) - {id} && NewIds(info') == NewIds(info) + {id};
  }

  ghost predicate SameAddrs(info: InfoMap, info': InfoMap) {
    info'.Keys == info.Keys
    && forall id :: id in info ==> info'[id].addr == info[id].addr && info'[id].randomPos == info[id].randomPos
  }

  lemma AddrsPlace(env: Env, info: InfoMap, info': InfoMap, tried: seq<seq<int>>, b: nat, s: seq<int>)
    requires SameAddrs(info, info') && Placed(env, info, tried) && b < |tried|
    requires forall i :: 0 <= i < |s| ==> s[i] in info && TriedBucket(env, info[s[i]].addr) == b
    ensures Placed(env, info', tried[b := s])
  {
    var tried' := tried[b := s];
    forall c, i | 0 <= c < |tried'| && 0 <= i < |tried'[c]|
      ensures tried'[c][i] in info' && TriedBucket(env, info'[tried'[c][i]].addr) == c
    {
      var x := tried'[c][i];
      assert x in info;
    }
  }

  lemma AddrsIndex(t: Tables, info': InfoMap)
    requires SameAddrs(t.info, info')
    requires IdsBelow(t.info, t.idCount) && AddrIndex(t.info, t.addr) && RandomIndex(t.info, t.random)
    ensures IdsBelow(info', t.idCount) && AddrIndex(info', t.addr) && RandomIndex(info', t.random)
  {
  }

  lemma PromotedInfo(t: Tables, env: Env, b: nat, id: int)
    requires Inv(t, env) && id in t.info && !t.info[id].inTried && b < |t.tried|
    ensures MovesIn(t.info, Promoted(Uncounted(t, id), b, id).info, id)
  {
    assert (NewBag(t.news) + multiset{})[id] == NewRefs(t.info, id);
    var i := t.info[id];
    assert t.info[id := i.(refCount := 0)][id := i.(refCount := 0, inTried := true)]
        == t.info[id := i.(refCount := 0, inTried := true)];
  }

  lemma PromotedBags(t: Tables, b: nat, id: int, info': InfoMap)
    requires NewMatch(t.info, NewBag(t.news) + multiset{}) && TriedMatch(t.info, TriedBag(t.tried))
    requires b < |t.tried| && MovesIn(t.info, info', id)
    ensures NewMatch(info', NewBag(Without(t.news, id)) + multiset{})
    ensures TriedMatch(info', TriedBag(t.tried[b := t.tried[b] + [id]]))
  {
    assert NewBag(t.news) + multiset{} == NewBag(t.news);
    MoveInMatch(t.info, info', id, NewBag(t.news), TriedBag(t.tried));
    NewBagWithout(t.news, id);
    assert NewBag(Without(t.news, id)) + multiset{} == NewBag(t.news)[id := 0];
    TriedBagUpdate(t.tried, b, t.tried[b] + [id]);
    assert TriedBag(t.tried[b := t.tried[b] + [id]]) == TriedBag(t.tried) + multiset{id};
  }

  lemma PromotedKeeps(t: Tables, env: Env, id: int)
    requires Inv(t, env) && id in t.info && !t.info[id].inTried
    requires |t.tried[TriedBucket(env, t.info[id].addr)]| < TRIED_BUCKET_SIZE
    ensures Inv(Promoted(Uncounted(t, id), TriedBucket(env, t.info[id].addr), id), env)
  {
    var b := TriedBucket(env, t.info[id].addr);
    var t' := Promoted(Uncounted(t, id), b, id);
    PromotedInfo(t, env, b, id);
    assert NewMatch(t'.info, NewBag(t'.news) + multiset{}) && TriedMatch(t'.info, TriedBag(t'.tried)) by {
      PromotedBags(t, b, id, t'.info);
    }
    assert Counts(t'.info, t'.nTried, t'.nNew) by { MoveInCounts(t.info, t'.info, id, t.nTried, t.nNew); }
    assert Placed(env, t'.info, t'.tried) by {
      AddrsPlace(env, t.info, t'.info, t.tried, b, t.tried[b] + [id]);
    }
    assert Sizes(t'.tried, t'.news) by { WithoutSizes(t.news, id); }
    AddrsIndex(t, t'.info);
  }

  lemma WithoutSizes(news: seq<set<int>>, id: int)
    ensures forall b :: 0 <= b < |news| ==>
      |Without(news, id)[b]| == |news[b]| - (if id in news[b] then 1 else 0)
  {
  }

  lemma ExchangedBags(t: Tables, b: nat, shuffled: seq<int>, pos: nat, back: nat, id: int, t': Tables)
    requires b < |t.tried| && back < |t.news| && Shuffle(t.tried[b], shuffled, pos)
    requires t'.tried == t.tried[b := shuffled[pos := id]]
    requires t'.news == Without(t.news, id)[back := Without(t.news, id)[back] + {shuffled[pos]}]
    requires shuffled[pos] !in t.news[back] && shuffled[pos] != id
    ensures NewBag(t'.news) == NewBag(t.news)[id := 0] + multiset{shuffled[pos]}
    ensures TriedBag(t'.tried) == TriedBag(t.tried) - multiset{shuffled[pos]} + multiset{id}
  {
    hide NewBag, TriedBag, Without;
    var evicted := shuffled[pos];
    var news := Without(t.news, id);
    NewBagWithout(t.news, id);
    NewBagUpdate(news, back, news[back] + {evicted});
    assert multiset(news[back] + {evicted}) == multiset(news[back]) + multiset{evicted};
    TriedBagUpdate(t.tried, b, shuffled[pos := id]);
    assert multiset(shuffled[pos := id]) == multiset(shuffled) - multiset{evicted} + multiset{id};
    assert evicted in multiset(t.tried[b]);
    assert multiset(t.tried[b]) <= TriedBag(t.tried);
  }

  lemma ExchangedInfo(info: InfoMap, evicted: int, id: int)
    requires evicted in info && id in info && evicted != id && info[evicted].inTried && !info[id].inTried
    ensures var uncounted := info[id := info[id].(refCount := 0)];
      var e := uncounted[evicted := uncounted[evicted].(inTried := false, refCount := 1)];
      var info1 := info[evicted := info[evicted].(refCount := 1, inTried := false)];
      && MovesOut(info, info1, evicted)
      && MovesIn(info1, e[id := e[id].(inTried := true)], id)
  {
    var uncounted := info[id := info[id].(refCount := 0)];
    var e := uncounted[evicted := uncounted[evicted].(inTried := false, refCount := 1)];
    var info1 := info[evicted := info[evicted].(refCount := 1, inTried := false)];
    assert e[id := e[id].(inTried := true)] == info1[id := info1[id].(refCount := 0, inTried := true)];
  }

  lemma ExchangedRoles(t: Tables, env: Env, b: nat, shuffled: seq<int>, pos: nat, back: nat, id: int)
    requires Inv(t, env) && id in t.info && !t.info[id].inTried
    requires b < |t.tried| && Shuffle(t.tried[b], shuffled, pos) && back < |t.news|
    ensures shuffled[pos] in t.info && t.info[shuffled[pos]].inTried && shuffled[pos] !in t.news[back]
    ensures var info1 := t.info[shuffled[pos] := t.info[shuffled[pos]].(refCount := 1, inTried := false)];
      && MovesOut(t.info, info1, shuffled[pos])
      && MovesIn(info1, Exchanged(Uncounted(t, id), b, shuffled, pos, back, id).info, id)
  {
    ShuffledMember(t, env, b, shuffled, pos);
    assert (NewBag(t.news) + multiset{})[id] == NewRefs(t.info, id);
    if shuffled[pos] in t.news[back] {
      NewMember(t.info, t.news, multiset{}, back, shuffled[pos]);
    }
    ExchangedInfo(t.info, shuffled[pos], id);
  }

  lemma ExchangedMatch(t: Tables, info1: InfoMap, t': Tables, b: nat, shuffled: seq<int>, pos: nat, back: nat, id: int)
    requires NewMatch(t.info, NewBag(t.news) + multiset{}) && TriedMatch(t.info, TriedBag(t.tried)) && RefRange(t.info)
    requires b < |t.tried| && Shuffle(t.tried[b], shuffled, pos) && back < |t.news|
    requires shuffled[pos] !in t.news[back] && shuffled[pos] != id
    requires MovesOut(t.info, info1, shuffled[pos]) && MovesIn(info1, t'.info, id)
    requires t'.tried == t.tried[b := shuffled[pos := id]]
    requires t'.news == Without(t.news, id)[back := Without(t.news, id)[back] + {shuffled[pos]}]
    ensures NewMatch(t'.info, NewBag(t'.news) + multiset{}) && TriedMatch(t'.info, TriedBag(t'.tried))
  {
    var evicted := shuffled[pos];
    assert NewBag(t.news) + multiset{} == NewBag(t.news);
    MoveOutMatch(t.info, info1, evicted, NewBag(t.news), TriedBag(t.tried));
    MoveInMatch(info1, t'.info, id, NewBag(t.news) + multiset{evicted}, TriedBag(t.tried) - multiset{evicted});
    ExchangedBags(t, b, shuffled, pos, back, id, t');
    assert NewBag(t'.news) + multiset{} == (NewBag(t.news) + multiset{evicted})[id := 0];
  }

  lemma ExchangedKeeps(t: Tables, env: Env, id: int, shuffled: seq<int>, pos: nat, back: nat)
    requires Inv(t, env) && id in t.info && !t.info[id].inTried
    requires Shuffle(t.tried[TriedBucket(env, t.info[id].addr)], shuffled, pos)
    requires back < |t.news| && |Without(t.news, id)[back]| < NEW_BUCKET_SIZE
    ensures shuffled[pos] in t.info
    ensures Inv(Exchanged(Uncounted(t, id), TriedBucket(env, t.info[id].addr), shuffled, pos, back, id), env)
  {
    var b := TriedBucket(env, t.info[id].addr);
    assert b < |t.tried|;
    hide NewMatch, TriedMatch, Counts, Placed, Sizes, IdsBelow, AddrIndex, RandomIndex, RefRange, NewBag, TriedBag;
    hide MovesIn, MovesOut, SameAddrs, TriedBucket;
    ExchangedRoles(t, env, b, shuffled, pos, back, id);
    var evicted := shuffled[pos];
    var t' := Exchanged(Uncounted(t, id), b, shuffled, pos, back, id);
    var info1 := t.info[evicted := t.info[evicted].(refCount := 1, inTried := false)];
    assert NewMatch(t'.info, NewBag(t'.news) + multiset{}) && TriedMatch(t'.info, TriedBag(t'.tried)) by {
      ExchangedMatch(t, info1, t', b, shuffled, pos, back, id);
    }
    assert Counts(t'.info, t'.nTried, t'.nNew) by {
      MoveOutCounts(t.info, info1, evicted, t.nTried, t.nNew);
      MoveInCounts(info1, t'.info, id, t.nTried - 1, t.nNew + 1);
    }
    assert RefRange(t'.info) && SameAddrs(t.info, t'.info) by { MovedBoth(t.info, info1, t'.info, evicted, id); }
    assert Placed(env, t'.info, t'.tried) by { ExchangedPlaces(t, env, b, shuffled, pos, id, t'.info); }
    assert Sizes(t'.tried, t'.news) by { ExchangedSizes(t, b, shuffled, pos, back, id); }
    AddrsIndex(t, t'.info);
  }

  lemma MovedBoth(info: InfoMap, info1: InfoMap, info': InfoMap, evicted: int, id: int)
    requires RefRange(info) && MovesOut(info, info1, evicted) && MovesIn(info1, info', id)
    ensures RefRange(info') && SameAddrs(info, info')
  {
  }

  lemma ExchangedPlaces(t: Tables, env: Env, b: nat, shuffled: seq<int>, pos: nat, id: int, info': InfoMap)
    requires Placed(env, t.info, t.tried) && b < |t.tried| && Shuffle(t.tried[b], shuffled, pos)
    requires id in t.info && TriedBucket(env, t.info[id].addr) == b && SameAddrs(t.info, info')
    ensures Placed(env, info', t.tried[b := shuffled[pos := id]])
  {
    var s := shuffled[pos := id];
    forall i | 0 <= i < |s|
      ensures s[i] in t.info && TriedBucket(env, t.info[s[i]].addr) == b
    {
      assert shuffled[i] in multiset(shuffled);
      assert shuffled[i] in multiset(t.tried[b]);
      var k :| 0 <= k < |t.tried[b]| && t.tried[b][k] == shuffled[i];
    }
    AddrsPlace(env, t.info, info', t.tried, b, s);
  }

  lemma ExchangedSizes(t: Tables, b: nat, shuffled: seq<int>, pos: nat, back: nat, id: int)
    requires Sizes(t.tried, t.news) && b < |t.tried| && back < |t.news| && Shuffle(t.tried[b], shuffled, pos)
    requires |Without(t.news, id)[back]| < NEW_BUCKET_SIZE
    ensures Sizes(t.tried[b := shuffled[pos := id]],
                  Without(t.news, id)[back := Without(t.news, id)[back] + {shuffled[pos]}])
  {
    WithoutSizes(t.news, id);
    assert |multiset(shuffled)| == |multiset(t.tried[b])|;
  }

  /** MakeTried keeps the tables consistent.  The evicted entry always finds a
      place: the bucket `id` came from has one, since `id` has just left it. */
  lemma MadeTriedKeeps(t: Tables, env: Env, id: int, origin: nat, shuffled: seq<int>, pos: nat)
    requires Inv(t, env) && id in t.info && !t.info[id].inTried
    requires origin < |t.news| && id in t.news[origin]
    requires Shuffle(t.tried[TriedBucket(env, t.info[id].addr)], shuffled, pos)
          || |t.tried[TriedBucket(env, t.info[id].addr)]| < TRIED_BUCKET_SIZE
    ensures Inv(MadeTried(t, env, id, origin, shuffled, pos), env)
    ensures |Uncounted(t, id).news[origin]| < NEW_BUCKET_SIZE
    ensures Uncounted(t, id).info[id].refCount == 0
  {
    var b := TriedBucket(env, t.info[id].addr);
    WithoutSizes(t.news, id);
    assert (NewBag(t.news) + multiset{})[id] == NewRefs(t.info, id);
    if |t.tried[b]| < TRIED_BUCKET_SIZE {
      PromotedKeeps(t, env, id);
    } else {
      ShuffledMember(t, env, b, shuffled, pos);
      var home := t.info[shuffled[pos]];
      var u := NewBucket(env, home.addr.ip, home.source);
      ExchangedKeeps(t, env, id, shuffled, pos,
                     if |Without(t.news, id)[u]| < NEW_BUCKET_SIZE then u else origin);
    }
  }
}
