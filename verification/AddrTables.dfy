/** The address tables of src/addrman.h as a value, the consistency that
    `Check_` tests, and the steps its operations are made of. */
module AddrTables {

  const TRIED_BUCKET_COUNT: nat := 64
  const TRIED_BUCKET_SIZE: nat := 64
  const NEW_BUCKET_COUNT: nat := 256
  const NEW_BUCKET_SIZE: nat := 64
  const NEW_BUCKETS_PER_ADDRESS: nat := 4

  /** A network address, and a service on it (address and port). */
  type Ip = nat
  datatype Service = Service(ip: Ip, port: nat)

  /** What is known about an address; `services` is the set of flags set in
      its service bits. */
  datatype Info = Info(addr: Service, services: set<nat>, time: nat, source: Ip,
                       lastSuccess: int, lastTry: int, attempts: int,
                       refCount: int, inTried: bool, randomPos: int)

  /** Keyed hashes and the routability test, which the tables only consult. */
  datatype Env = Env(triedHash: Service -> nat, newHash: (Ip, Ip) -> nat, routable: Ip -> bool)

  function TriedBucket(env: Env, a: Service): (b: nat)
    ensures b < TRIED_BUCKET_COUNT
  {
    env.triedHash(a) % TRIED_BUCKET_COUNT
  }

  function NewBucket(env: Env, a: Ip, source: Ip): (b: nat)
    ensures b < NEW_BUCKET_COUNT
  {
    env.newHash(a, source) % NEW_BUCKET_COUNT
  }

  type InfoMap = map<int, Info>

  datatype Tables = Tables(idCount: int, info: InfoMap, addr: map<Ip, int>, random: seq<int>,
                           nTried: int, tried: seq<seq<int>>, nNew: int, news: seq<set<int>>)

  function Empty(): Tables {
    Tables(0, map[], map[], [], 0, seq(TRIED_BUCKET_COUNT, _ => []), 0, seq(NEW_BUCKET_COUNT, _ => {}))
  }

  // ---------------------------------------------------------------- bags of references

  /** How often each id occurs in the new buckets. */
  function NewBag(news: seq<set<int>>): multiset<int> {
    if news == [] then multiset{} else NewBag(news[..|news| - 1]) + multiset(news[|news| - 1])
  }

  /** How often each id occurs in the tried buckets. */
  function TriedBag(tried: seq<seq<int>>): multiset<int> {
    if tried == [] then multiset{} else TriedBag(tried[..|tried| - 1]) + multiset(tried[|tried| - 1])
  }

  lemma {:induction false} NewBagUpdate(news: seq<set<int>>, b: nat, s: set<int>)
    requires b < |news|
    ensures multiset(news[b]) <= NewBag(news)
    ensures NewBag(news[b := s]) == NewBag(news) - multiset(news[b]) + multiset(s)
  {
    var n := |news| - 1;
    if b == n {
      assert news[b := s][..n] == news[..n];
    } else {
      assert news[b := s][..n] == news[..n][b := s];
      NewBagUpdate(news[..n], b, s);
    }
  }

  lemma {:induction false} TriedBagUpdate(tried: seq<seq<int>>, b: nat, s: seq<int>)
    requires b < |tried|
    ensures multiset(tried[b]) <= TriedBag(tried)
    ensures TriedBag(tried[b := s]) == TriedBag(tried) - multiset(tried[b]) + multiset(s)
  {
    var n := |tried| - 1;
    if b == n {
      assert tried[b := s][..n] == tried[..n];
    } else {
      assert tried[b := s][..n] == tried[..n][b := s];
      TriedBagUpdate(tried[..n], b, s);
    }
  }

  lemma {:induction false} NewBagMember(news: seq<set<int>>, id: int) returns (b: nat)
    ensures id in NewBag(news) ==> b < |news| && id in news[b]
    ensures forall b :: 0 <= b < |news| && id in news[b] ==> id in NewBag(news)
  {
    b := 0;
    if news != [] {
      var n := |news| - 1;
      b := NewBagMember(news[..n], id);
      if id in news[n] {
        b := n;
      }
      forall c | 0 <= c < |news| && id in news[c] ensures id in NewBag(news) {
        if c < n { assert id in news[..n][c]; }
      }
    }
  }

  lemma {:induction false} TriedBagMember(tried: seq<seq<int>>, b: nat, id: int)
    requires b < |tried| && id in tried[b]
    ensures id in TriedBag(tried)
  {
    TriedBagUpdate(tried, b, []);
    assert id in multiset(tried[b]);
  }

  function Without(news: seq<set<int>>, id: int): (r: seq<set<int>>)
    ensures |r| == |news|
    ensures forall b :: 0 <= b < |news| ==> r[b] == news[b] - {id}
  {
    seq(|news|, b requires 0 <= b < |news| => news[b] - {id})
  }

  lemma {:induction false} NewBagWithout(news: seq<set<int>>, id: int)
    ensures NewBag(Without(news, id)) == NewBag(news)[id := 0]
  {
    if news != [] {
      var n := |news| - 1;
      assert Without(news, id)[..n] == Without(news[..n], id);
      NewBagWithout(news[..n], id);
    }
  }

  // ---------------------------------------------------------------- consistency

  function TriedIds(info: InfoMap): set<int> { set id | id in info && info[id].inTried }
  function NewIds(info: InfoMap): set<int> { set id | id in info && !info[id].inTried }

  /** How often an id has to occur in the new and in the tried buckets. */
  function NewRefs(info: InfoMap, id: int): int {
    if id in info && !info[id].inTried then info[id].refCount else 0
  }
  function TriedRefs(info: InfoMap, id: int): int {
    if id in info && info[id].inTried then 1 else 0
  }

  ghost predicate Sizes(tried: seq<seq<int>>, news: seq<set<int>>) {
    && |tried| == TRIED_BUCKET_COUNT && |news| == NEW_BUCKET_COUNT
    && (forall b :: 0 <= b < |tried| ==> |tried[b]| <= TRIED_BUCKET_SIZE)
    && (forall b :: 0 <= b < |news| ==> |news[b]| <= NEW_BUCKET_SIZE)
  }

  ghost predicate IdsBelow(info: InfoMap, idCount: int) {
    0 <= idCount && forall id :: id in info ==> 0 <= id < idCount
  }

  ghost predicate AddrIndex(info: InfoMap, addr: map<Ip, int>) {
    && (forall id :: id in info ==> info[id].addr.ip in addr && addr[info[id].addr.ip] == id)
    && (forall ip :: ip in addr ==> addr[ip] in info && info[addr[ip]].addr.ip == ip)
  }

  ghost predicate RandomIndex(info: InfoMap, random: seq<int>) {
    && (forall id :: id in info ==> 0 <= info[id].randomPos < |random| && random[info[id].randomPos] == id)
    && (forall p :: 0 <= p < |random| ==> random[p] in info && info[random[p]].randomPos == p)
  }

  ghost predicate NewMatch(info: InfoMap, bag: multiset<int>) {
    forall id :: bag[id] == NewRefs(info, id)
  }
  ghost predicate TriedMatch(info: InfoMap, bag: multiset<int>) {
    forall id :: bag[id] == TriedRefs(info, id)
  }

  ghost predicate RefRange(info: InfoMap) {
    forall id :: id in info ==>
      if info[id].inTried then info[id].refCount == 0
      else 1 <= info[id].refCount <= NEW_BUCKETS_PER_ADDRESS
  }

  ghost predicate Counts(info: InfoMap, nTried: int, nNew: int) {
    nTried == |TriedIds(info)| && nNew == |NewIds(info)|
  }

  /** Every tried entry is in the bucket its address hashes to. */
  ghost predicate Placed(env: Env, info: InfoMap, tried: seq<seq<int>>) {
    forall b, i :: 0 <= b < |tried| && 0 <= i < |tried[b]| ==>
      tried[b][i] in info && TriedBucket(env, info[tried[b][i]].addr) == b
  }

  /** The tables agree with each other, except that the ids in `extra` are
      counted as referenced that much more often than they are. */
  ghost predicate InvUpTo(t: Tables, env: Env, extra: multiset<int>) {
    && Sizes(t.tried, t.news)
    && IdsBelow(t.info, t.idCount)
    && AddrIndex(t.info, t.addr)
    && RandomIndex(t.info, t.random)
    && NewMatch(t.info, NewBag(t.news) + extra)
    && TriedMatch(t.info, TriedBag(t.tried))
    && RefRange(t.info)
    && Counts(t.info, t.nTried, t.nNew)
    && Placed(env, t.info, t.tried)
  }

  ghost predicate Inv(t: Tables, env: Env) {
    InvUpTo(t, env, multiset{})
  }

  /** The checks of `Check_` on recorded times. */
  ghost predicate TimesOk(info: InfoMap) {
    forall id :: id in info ==>
      && info[id].lastTry >= 0 && info[id].lastSuccess >= 0
      && (info[id].inTried ==> info[id].lastSuccess != 0)
  }

  lemma EmptyInv(env: Env)
    ensures Inv(Empty(), env) && TimesOk(Empty().info)
  {
    EmptyBags(Empty().tried, Empty().news);
  }

  lemma {:induction false} EmptyBags(tried: seq<seq<int>>, news: seq<set<int>>)
    requires forall b :: 0 <= b < |tried| ==> tried[b] == []
    requires forall b :: 0 <= b < |news| ==> news[b] == {}
    ensures TriedBag(tried) == multiset{} && NewBag(news) == multiset{}
    decreases |tried| + |news|
  {
    if tried != [] {
      EmptyBags(tried[..|tried| - 1], news);
    }
    if news != [] {
      EmptyBags(tried, news[..|news| - 1]);
    }
  }

  // ---------------------------------------------------------------- what consistency gives

  /** An id in a new bucket is a known address outside the tried table, and
      an id in a tried bucket is a known address inside it. */
  lemma NewMember(info: InfoMap, news: seq<set<int>>, extra: multiset<int>, b: nat, id: int)
    requires NewMatch(info, NewBag(news) + extra) && b < |news| && id in news[b]
    ensures id in info && !info[id].inTried && info[id].refCount >= 1 + extra[id]
  {
    NewBagUpdate(news, b, {});
    assert id in multiset(news[b]);
    assert (NewBag(news) + extra)[id] == NewRefs(info, id);
  }

  lemma TriedMember(info: InfoMap, tried: seq<seq<int>>, b: nat, i: nat)
    requires TriedMatch(info, TriedBag(tried)) && b < |tried| && i < |tried[b]|
    ensures tried[b][i] in info && info[tried[b][i]].inTried
  {
    TriedBagMember(tried, b, tried[b][i]);
    assert TriedBag(tried)[tried[b][i]] == TriedRefs(info, tried[b][i]);
  }

  /** An address outside the tried table is in some new bucket. */
  lemma FindBucket(t: Tables, env: Env, id: int) returns (b: nat)
    requires Inv(t, env) && id in t.info && !t.info[id].inTried
    ensures b < |t.news| && id in t.news[b]
  {
    assert (NewBag(t.news) + multiset{})[id] == NewRefs(t.info, id);
    b := NewBagMember(t.news, id);
  }

  lemma {:induction false} BagSizes(tried: seq<seq<int>>, news: seq<set<int>>)
    requires forall b :: 0 <= b < |tried| ==> |tried[b]| <= TRIED_BUCKET_SIZE
    requires forall b :: 0 <= b < |news| ==> |news[b]| <= NEW_BUCKET_SIZE
    ensures |TriedBag(tried)| <= TRIED_BUCKET_SIZE * |tried|
    ensures |NewBag(news)| <= NEW_BUCKET_SIZE * |news|
    decreases |tried| + |news|
  {
    if tried != [] {
      BagSizes(tried[..|tried| - 1], news);
    }
    if news != [] {
      BagSizes(tried, news[..|news| - 1]);
    }
  }

  lemma SetBelowBag(s: set<int>, bag: multiset<int>)
    requires forall x :: x in s ==> x in bag
    ensures |s| <= |bag|
  {
    forall x ensures multiset(s)[x] <= bag[x] {
      if x in s { assert x in bag; }
    }
    assert bag == multiset(s) + (bag - multiset(s));
  }

  /** The random vector holds each id once, so its length is the number of
      known addresses, and the bucket limits bound that number. */
  lemma Totals(t: Tables, env: Env)
    requires Inv(t, env)
    ensures |t.random| == |t.info| == t.nTried + t.nNew
    ensures t.nTried <= TRIED_BUCKET_COUNT * TRIED_BUCKET_SIZE
    ensures t.nNew <= NEW_BUCKET_COUNT * NEW_BUCKET_SIZE
  {
    var ids := t.info.Keys;
    assert ids == TriedIds(t.info) + NewIds(t.info);
    assert TriedIds(t.info) !! NewIds(t.info);
    assert multiset(t.random) == multiset(ids) by { RandomBag(t.info, t.random); }
    assert |multiset(t.random)| == |multiset(ids)|;
    BagSizes(t.tried, t.news);
    forall id | id in TriedIds(t.info) ensures id in TriedBag(t.tried) {
      assert TriedBag(t.tried)[id] == TriedRefs(t.info, id);
    }
    SetBelowBag(TriedIds(t.info), TriedBag(t.tried));
    forall id | id in NewIds(t.info) ensures id in NewBag(t.news) {
      assert (NewBag(t.news) + multiset{})[id] == NewRefs(t.info, id);
    }
    SetBelowBag(NewIds(t.info), NewBag(t.news));
  }

  lemma RandomBag(info: InfoMap, random: seq<int>)
    requires RandomIndex(info, random)
    ensures multiset(random) == multiset(info.Keys)
  {
    forall id ensures multiset(random)[id] == multiset(info.Keys)[id] {
      if id in info {
        var p := info[id].randomPos;
        assert random == random[..p] + [id] + random[p + 1..];
        assert id !in random[..p] && id !in random[p + 1..];
      } else {
        assert id !in random;
      }
    }
  }
}
