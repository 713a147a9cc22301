/** The public operations of the address manager, runs of them from the empty
    manager, and what `Check_` says after any run. */
module AddrRuns {
  import opened AddrTables
  import opened AddrOps

  // ---------------------------------------------------------------- Good_, Attempt_, Connected_

  /** Whether the entry found for the network address is this very service. */
  predicate Known(t: Tables, s: Service) {
    s.ip in t.addr && t.addr[s.ip] in t.info && t.info[t.addr[s.ip]].addr == s
  }

  function IdOf(t: Tables, s: Service): int
    requires Known(t, s)
  {
    t.addr[s.ip]
  }

  function MarkedGood(i: Info, time: int): Info {
    i.(lastSuccess := time, lastTry := time, time := AsUint32(time), attempts := 0)
  }

  /** What the random choices of Good_ can come to: `origin` is a new bucket
      holding the entry, and `shuffled`, `pos` are what SelectTried leaves. */
  ghost predicate GoodChoices(t: Tables, env: Env, s: Service, origin: nat, shuffled: seq<int>, pos: nat) {
    Known(t, s) && !t.info[IdOf(t, s)].inTried ==>
      && ((exists b :: 0 <= b < |t.news| && IdOf(t, s) in t.news[b]) ==>
            origin < |t.news| && IdOf(t, s) in t.news[origin])
      && TriedBucket(env, s) < |t.tried|
      && (|t.tried[TriedBucket(env, s)]| < TRIED_BUCKET_SIZE
          || Shuffle(t.tried[TriedBucket(env, s)], shuffled, pos))
  }

  ghost function MadeGood(t: Tables, env: Env, s: Service, time: int, origin: nat, shuffled: seq<int>, pos: nat): Tables
    requires Inv(t, env) && GoodChoices(t, env, s, origin, shuffled, pos)
  {
    if !Known(t, s) then t
    else
      var id := IdOf(t, s);
      var t1 := Touched(t, id, MarkedGood(t.info[id], time));
      if t.info[id].inTried then t1
      else if !exists b :: 0 <= b < |t.news| && id in t.news[b] then t1
      else
        TouchKeeps(t, env, multiset{}, id, MarkedGood(t.info[id], time));
        MadeTried(t1, env, id, origin, shuffled, pos)
  }

  /** Good_ always ends with the entry in the tried table; the branch for an
      entry in no bucket is never taken. */
  lemma GoodKeeps(t: Tables, env: Env, s: Service, time: int, origin: nat, shuffled: seq<int>, pos: nat)
    requires Inv(t, env) && GoodChoices(t, env, s, origin, shuffled, pos)
    ensures Inv(MadeGood(t, env, s, time, origin, shuffled, pos), env)
    ensures Known(t, s) && !t.info[IdOf(t, s)].inTried ==>
      exists b :: 0 <= b < |t.news| && IdOf(t, s) in t.news[b]
  {
    if Known(t, s) {
      var id := IdOf(t, s);
      var i := MarkedGood(t.info[id], time);
      TouchKeeps(t, env, multiset{}, id, i);
      if !t.info[id].inTried {
        var _ := FindBucket(t, env, id);
        MadeTriedKeeps(Touched(t, id, i), env, id, origin, shuffled, pos);
      }
    }
  }

  function Attempted(t: Tables, s: Service, time: int): Tables {
    if !Known(t, s) then t
    else
      var i := t.info[IdOf(t, s)];
      Touched(t, IdOf(t, s), i.(lastTry := time, attempts := i.attempts + 1))
  }

  function Connected(t: Tables, s: Service, time: int): Tables {
    if !Known(t, s) then t
    else
      var i := t.info[IdOf(t, s)];
      if time - i.time > 20 * 60 then Touched(t, IdOf(t, s), i.(time := AsUint32(time))) else t
  }

  // ---------------------------------------------------------------- GetAddr_

  function NodesToReturn(n: nat): (r: nat)
    ensures r <= n && r <= 2500
  {
    var share := 23 * n / 100;
    if share > 2500 then 2500 else share
  }

  /** In round k, entry k is swapped with the one at places[k] >= k. */
  function Shuffled(t: Tables, places: seq<nat>): (t': Tables)
    requires RandomIndex(t.info, t.random) && |places| <= |t.random|
    requires forall k :: 0 <= k < |places| ==> k <= places[k] < |t.random|
    ensures RandomIndex(t'.info, t'.random) && |t'.random| == |t.random|
  {
    if places == [] then t
    else
      var n := |places| - 1;
      var t1 := Shuffled(t, places[..n]);
      SwapIndexes(t1, n, places[n]);
      Swapped(t1, n, places[n])
  }

  /** Only positions in the random vector differ. */
  ghost predicate Reordered(t: Tables, t': Tables) {
    && t' == t.(info := t'.info, random := t'.random)
    && t'.info.Keys == t.info.Keys && |t'.random| == |t.random|
    && forall id :: id in t.info ==> t'.info[id] == t.info[id].(randomPos := t'.info[id].randomPos)
  }

  lemma SwapReorders(t: Tables, p1: nat, p2: nat)
    requires RandomIndex(t.info, t.random) && p1 < |t.random| && p2 < |t.random|
    ensures Reordered(t, Swapped(t, p1, p2))
  {
  }

  lemma {:induction false} ShuffledReorders(t: Tables, places: seq<nat>)
    requires RandomIndex(t.info, t.random) && |places| <= |t.random|
    requires forall k :: 0 <= k < |places| ==> k <= places[k] < |t.random|
    ensures Reordered(t, Shuffled(t, places))
  {
    if places != [] {
      var n := |places| - 1;
      ShuffledReorders(t, places[..n]);
      SwapReorders(Shuffled(t, places[..n]), n, places[n]);
    }
  }

  lemma {:induction false} ShuffledKeeps(t: Tables, env: Env, places: seq<nat>)
    requires Inv(t, env) && |places| <= |t.random|
    requires forall k :: 0 <= k < |places| ==> k <= places[k] < |t.random|
    ensures Inv(Shuffled(t, places), env)
  {
    if places != [] {
      var n := |places| - 1;
      ShuffledKeeps(t, env, places[..n]);
      SwapKeeps(Shuffled(t, places[..n]), env, multiset{}, n, places[n]);
    }
  }

  /** The addresses GetAddr_ returns are known and all different. */
  lemma GetAddrDistinct(t: Tables, env: Env, p: nat, q: nat)
    requires Inv(t, env) && p < q < |t.random|
    ensures t.random[p] in t.info && t.random[q] in t.info
    ensures t.info[t.random[p]].addr.ip != t.info[t.random[q]].addr.ip
  {
    var i, j := t.random[p], t.random[q];
    assert t.info[i].randomPos == p && t.info[j].randomPos == q;
    assert t.addr[t.info[i].addr.ip] == i && t.addr[t.info[j].addr.ip] == j;
  }

  // ---------------------------------------------------------------- runs

  datatype Op =
    | Add(a: Address, source: Ip, penalty: int, now: int, roll: nat, picks: set<nat>, victim: int)
    | Good(s: Service, time: int, origin: nat, shuffled: seq<int>, pos: nat)
    | Attempt(s: Service, time: int)
    | Connect(s: Service, time: int)
    | GetAddr(places: seq<nat>)

  /** Whether Add_ comes to put the entry into a bucket it is not yet in. */
  ghost predicate Files(t: Tables, env: Env, a: Address, source: Ip, penalty: int, now: int, roll: nat)
    requires AddrIndex(t.info, t.addr) && |t.news| == NEW_BUCKET_COUNT
  {
    env.routable(a.addr.ip) &&
    (a.addr.ip in t.addr ==>
      var id := t.addr[a.addr.ip];
      !Declined(Refreshed(t.info[id], a, penalty, now), a, roll)
      && id !in t.news[NewBucket(env, a.addr.ip, source)])
  }

  /** The random choices recorded in the operation are ones it can make. */
  ghost predicate Allowed(t: Tables, env: Env, op: Op)
    requires Inv(t, env)
  {
    match op
    case Add(a, source, penalty, now, roll, picks, victim) =>
      var b := NewBucket(env, a.addr.ip, source);
      && Room(t, b, victim)
      && (|t.news[b]| == NEW_BUCKET_SIZE && Files(t, env, a, source, penalty, now, roll) ==>
            (BucketKnown(t, env, b); IsVictim(t.info, t.news[b], now, picks, victim)))
    case Good(s, _, origin, shuffled, pos) => GoodChoices(t, env, s, origin, shuffled, pos)
    case Attempt(_, _) => true
    case Connect(_, _) => true
    case GetAddr(places) =>
      && |places| == NodesToReturn(|t.random|)
      && forall k :: 0 <= k < |places| ==> k <= places[k] < |t.random|
  }

  lemma BucketKnown(t: Tables, env: Env, b: nat)
    requires Inv(t, env) && b < |t.news|
    ensures forall x :: x in t.news[b] ==> x in t.info
  {
    forall x | x in t.news[b] ensures x in t.info {
      NewMember(t.info, t.news, multiset{}, b, x);
    }
  }

  ghost function Step(t: Tables, env: Env, op: Op): Tables
    requires Inv(t, env) && Allowed(t, env, op)
  {
    match op
    case Add(a, source, penalty, now, roll, _, victim) => Added(t, env, a, source, penalty, now, roll, victim).0
    case Good(s, time, origin, shuffled, pos) => MadeGood(t, env, s, time, origin, shuffled, pos)
    case Attempt(s, time) => Attempted(t, s, time)
    case Connect(s, time) => Connected(t, s, time)
    case GetAddr(places) => Shuffled(t, places)
  }

  lemma AttemptKeeps(t: Tables, env: Env, s: Service, time: int)
    requires Inv(t, env)
    ensures Inv(Attempted(t, s, time), env)
  {
    if Known(t, s) {
      var i := t.info[IdOf(t, s)].(lastTry := time, attempts := t.info[IdOf(t, s)].attempts + 1);
      TouchKeeps(t, env, multiset{}, IdOf(t, s), i);
      assert Attempted(t, s, time) == Touched(t, IdOf(t, s), i);
    }
  }

  lemma ConnectKeeps(t: Tables, env: Env, s: Service, time: int)
    requires Inv(t, env)
    ensures Inv(Connected(t, s, time), env)
  {
    if Known(t, s) {
      TouchKeeps(t, env, multiset{}, IdOf(t, s), t.info[IdOf(t, s)].(time := AsUint32(time)));
    }
  }

  lemma StepKeeps(t: Tables, env: Env, op: Op)
    requires Inv(t, env) && Allowed(t, env, op)
    ensures Inv(Step(t, env, op), env)
  {
    match op
    case Add(a, source, penalty, now, roll, _, victim) => AddedKeeps(t, env, a, source, penalty, now, roll, victim);
    case Good(s, time, origin, shuffled, pos) => GoodKeeps(t, env, s, time, origin, shuffled, pos);
    case Attempt(s, time) => AttemptKeeps(t, env, s, time);
    case Connect(s, time) => ConnectKeeps(t, env, s, time);
    case GetAddr(places) => ShuffledKeeps(t, env, places);
  }

  ghost predicate Leads(t: Tables, env: Env, run: seq<Op>, t': Tables)
    requires Inv(t, env)
    decreases |run|
  {
    if run == [] then t' == t
    else Allowed(t, env, run[0]) && (StepKeeps(t, env, run[0]); Leads(Step(t, env, run[0]), env, run[1..], t'))
  }

  // ---------------------------------------------------------------- times

  /** Good_ is given a positive time and Attempt_ one that is not negative. */
  predicate TimeFine(op: Op) {
    match op
    case Good(_, time, _, _, _) => time > 0
    case Attempt(_, time) => time >= 0
    case _ => true
  }

  ghost predicate TimeOk(i: Info) {
    i.lastTry >= 0 && i.lastSuccess >= 0 && (i.inTried ==> i.lastSuccess != 0)
  }

  /** Every entry afterwards has the times of an entry before, or fine ones. */
  ghost predicate TimesFrom(info: InfoMap, info': InfoMap) {
    forall x :: x in info' ==>
      TimeOk(info'[x]) || (x in info && info'[x].lastTry == info[x].lastTry
        && info'[x].lastSuccess == info[x].lastSuccess && (info'[x].inTried ==> info[x].inTried))
  }

  lemma TimesCarry(info: InfoMap, info': InfoMap)
    requires TimesOk(info) && TimesFrom(info, info')
    ensures TimesOk(info')
  {
  }

  ghost predicate Inherits(info: InfoMap, info': InfoMap) {
    forall x :: x in info' ==>
      x in info && info'[x].lastTry == info[x].lastTry
      && info'[x].lastSuccess == info[x].lastSuccess && info'[x].inTried == info[x].inTried
  }

  lemma DropInherits(t: Tables, b: nat, id: int)
    requires RandomIndex(t.info, t.random) && id in t.info && b < |t.news|
    ensures Inherits(t.info, Dropped(t, b, id).info)
  {
  }

  lemma FiledInherits(t: Tables, b: nat, id: int, victim: int)
    requires RandomIndex(t.info, t.random) && id in t.info && b < |t.news|
    requires |t.news[b]| == NEW_BUCKET_SIZE ==> victim in t.info
    ensures Inherits(t.info, Filed(t, b, id, victim).info)
  {
    if |t.news[b]| == NEW_BUCKET_SIZE {
      DropInherits(Counted(t, id), b, victim);
    }
  }

  lemma AddedTimes(t: Tables, env: Env, op: Op)
    requires Inv(t, env) && op.Add? && Allowed(t, env, op)
    ensures TimesFrom(t.info, Step(t, env, op).info)
  {
    var b := NewBucket(env, op.a.addr.ip, op.source);
    if op.victim in t.news[b] {
      NewMember(t.info, t.news, multiset{}, b, op.victim);
    }
    if env.routable(op.a.addr.ip) {
      if op.a.addr.ip in t.addr {
        var id := t.addr[op.a.addr.ip];
        var i := Refreshed(t.info[id], op.a, op.penalty, op.now);
        FiledTimes(t.info, Touched(t, id, i), b, id, op.victim);
      } else {
        var i := Fresh(op.a, op.source, op.penalty);
        CreatedIndexes(t, i);
        FiledTimes(t.info, Created(t, i).(nNew := t.nNew + 1), b, t.idCount, op.victim);
      }
    }
  }

  lemma FiledTimes(info: InfoMap, t: Tables, b: nat, id: int, victim: int)
    requires RandomIndex(t.info, t.random) && id in t.info && b < |t.news|
    requires |t.news[b]| == NEW_BUCKET_SIZE ==> victim in t.info
    requires TimesFrom(info, t.info)
    ensures TimesFrom(info, Filed(t, b, id, victim).info)
  {
    hide Filed, RandomIndex;
    FiledInherits(t, b, id, victim);
  }

  lemma GoodTimes(t: Tables, env: Env, op: Op)
    requires Inv(t, env) && op.Good? && Allowed(t, env, op) && Known(t, op.s)
    ensures var id := IdOf(t, op.s); var t' := Step(t, env, op);
      && id in t'.info && t'.info[id].inTried
      && t'.info[id].lastSuccess == t'.info[id].lastTry == op.time
      && TimesFrom(t.info - {id}, t'.info - {id})
  {
    var id := IdOf(t, op.s);
    var i := MarkedGood(t.info[id], op.time);
    TouchKeeps(t, env, multiset{}, id, i);
    if !t.info[id].inTried {
      var _ := FindBucket(t, env, id);
      var t1 := Touched(t, id, i);
      var b := TriedBucket(env, op.s);
      if |t.tried[b]| >= TRIED_BUCKET_SIZE {
        ShuffledMember(t, env, b, op.shuffled, op.pos);
      }
    }
  }

  /** The recorded times stay fine exactly if the operation's time is, or the
      entry it is about is not there. */
  lemma StepTimes(t: Tables, env: Env, op: Op)
    requires Inv(t, env) && Allowed(t, env, op) && TimesOk(t.info)
    ensures TimesOk(Step(t, env, op).info) <==> TimeFine(op) || !Known(t, op.s)
  {
    var t' := Step(t, env, op);
    match op
    case Add(_, _, _, _, _, _, _) =>
      AddedTimes(t, env, op);
      TimesCarry(t.info, t'.info);
    case Good(s, time, _, _, _) =>
      if Known(t, s) {
        GoodTimes(t, env, op);
        var id := IdOf(t, s);
        TimesCarry(t.info - {id}, t'.info - {id});
        assert forall x :: x in t'.info && x != id ==> x in t'.info - {id} && (t'.info - {id})[x] == t'.info[x];
      }
    case Attempt(s, time) =>
      AttemptTimes(t, s, time);
    case Connect(s, time) =>
    case GetAddr(places) =>
      ShuffledReorders(t, places);
  }

  lemma AttemptTimes(t: Tables, s: Service, time: int)
    requires TimesOk(t.info)
    ensures TimesOk(Attempted(t, s, time).info) <==> time >= 0 || !Known(t, s)
  {
    if Known(t, s) {
      var info' := Attempted(t, s, time).info;
      assert info'[IdOf(t, s)].lastTry == time && IdOf(t, s) in info';
    }
  }

  // ---------------------------------------------------------------- Check_

  /** mapAddr[...] answers 0 for an address it does not hold. */
  function Lookup(addr: map<Ip, int>, ip: Ip): int {
    if ip in addr then addr[ip] else 0
  }

  /** One entry passes the tests of the first loop of `Check_`. */
  ghost predicate EntryOk(id: int, i: Info, addr: map<Ip, int>, random: seq<int>) {
    && (if i.inTried then i.lastSuccess != 0 && i.refCount == 0
        else 1 <= i.refCount <= NEW_BUCKETS_PER_ADDRESS)
    && Lookup(addr, i.addr.ip) == id
    && 0 <= i.randomPos < |random| && random[i.randomPos] == id
    && i.lastTry >= 0 && i.lastSuccess >= 0
  }

  /** Exactly when `Check_` answers 0. */
  ghost predicate CheckOk(t: Tables) {
    && |t.random| == t.nTried + t.nNew
    && (forall id :: id in t.info ==> EntryOk(id, t.info[id], t.addr, t.random))
    && Counts(t.info, t.nTried, t.nNew)
    && TriedMatch(t.info, TriedBag(t.tried))
    && NewMatch(t.info, NewBag(t.news))
  }

  lemma CheckExact(t: Tables, env: Env)
    requires Inv(t, env)
    ensures CheckOk(t) <==> TimesOk(t.info)
  {
    Totals(t, env);
    assert NewBag(t.news) + multiset{} == NewBag(t.news);
    if TimesOk(t.info) {
      forall id | id in t.info ensures EntryOk(id, t.info[id], t.addr, t.random) {
      }
    }
    if CheckOk(t) {
      forall id | id in t.info ensures TimeOk(t.info[id]) {
        assert EntryOk(id, t.info[id], t.addr, t.random);
      }
    }
  }

  lemma {:induction false} RunKeeps(t: Tables, env: Env, run: seq<Op>, t': Tables)
    requires Inv(t, env) && Leads(t, env, run, t')
    ensures Inv(t', env)
    ensures TimesOk(t.info) && (forall k :: 0 <= k < |run| ==> TimeFine(run[k])) ==> TimesOk(t'.info)
    decreases |run|
  {
    if run != [] {
      StepKeeps(t, env, run[0]);
      if TimesOk(t.info) {
        StepTimes(t, env, run[0]);
      }
      RunKeeps(Step(t, env, run[0]), env, run[1..], t');
    }
  }

  /** After any run from the empty manager the tables agree, no bucket is over
      its limit, and the number of addresses is bounded by the limits; and if
      the times it was given are fine, `Check_` finds nothing. */
  lemma RunsPassCheck(env: Env, run: seq<Op>, t: Tables)
    requires (EmptyInv(env); Leads(Empty(), env, run, t))
    ensures Inv(t, env)
    ensures |t.info| <= 256 * 64 + 64 * 64
    ensures (forall k :: 0 <= k < |run| ==> TimeFine(run[k])) ==> CheckOk(t)
  {
    EmptyInv(env);
    RunKeeps(Empty(), env, run, t);
    Totals(t, env);
    CheckExact(t, env);
  }

  /** One call too early for the clock: `Check_` fails with -1 or -6 exactly
      when the time given is not fine and the entry is there. */
  lemma StepPassesCheck(t: Tables, env: Env, op: Op)
    requires Inv(t, env) && Allowed(t, env, op) && CheckOk(t)
    ensures CheckOk(Step(t, env, op)) <==> TimeFine(op) || !Known(t, op.s)
  {
    CheckExact(t, env);
    StepKeeps(t, env, op);
    CheckExact(Step(t, env, op), env);
    StepTimes(t, env, op);
  }

  /** So two calls are enough: a new address, marked as good at time 0. */
  lemma GoodAtZeroFails(env: Env, a: Address, source: Ip) returns (run: seq<Op>, t: Tables)
    requires env.routable(a.addr.ip)
    ensures Inv(Empty(), env) && Leads(Empty(), env, run, t) && !CheckOk(t)
    ensures |run| == 2 && run[0].Add? && run[0].a == a && run[0].source == source
    ensures run[1].Good? && run[1].s == a.addr && run[1].time == 0
  {
    hide Inv, CheckOk, NewBucket, TriedBucket;
    EmptyInv(env);
    CheckExact(Empty(), env);
    var b := NewBucket(env, a.addr.ip, source);
    var add := Add(a, source, 0, 0, 0, {}, 0);
    StepPassesCheck(Empty(), env, add);
    StepKeeps(Empty(), env, add);
    var t1 := Step(Empty(), env, add);
    FirstAdded(env, add);
    var good := Good(a.addr, 0, b, [], 0);
    StepPassesCheck(t1, env, good);
    StepKeeps(t1, env, good);
    run, t := [add, good], Step(t1, env, good);
    assert run[1..] == [good] && Leads(t1, env, [good], t);
  }

  lemma FirstAdded(env: Env, op: Op)
    requires op.Add? && env.routable(op.a.addr.ip)
    requires (EmptyInv(env); Allowed(Empty(), env, op))
    ensures var t := (EmptyInv(env); Step(Empty(), env, op)); var b := NewBucket(env, op.a.addr.ip, op.source);
      && Known(t, op.a.addr) && IdOf(t, op.a.addr) == 0 && !t.info[0].inTried
      && |t.news| == NEW_BUCKET_COUNT && 0 in t.news[b]
      && t.tried == Empty().tried
  {
    hide Inv, NewBucket, TriedBucket;
    EmptyInv(env);
  }
}
