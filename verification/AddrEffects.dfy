/** What the operations of the address manager do to what is known of an
    address, one by one and over whole runs. */
module AddrEffects {
  import opened AddrTables
  import opened AddrOps
  import opened AddrRuns

  const MINUTE: int := 60
  const HOUR: int := 60 * MINUTE
  const DAY: int := 24 * HOUR

  /** What is known of the address itself, and not where it is kept. */
  ghost predicate SameFacts(i: Info, j: Info) {
    && i.addr == j.addr && i.source == j.source && i.services == j.services && i.time == j.time
    && i.lastSuccess == j.lastSuccess && i.lastTry == j.lastTry && i.attempts == j.attempts
  }

  // ---------------------------------------------------------------- places do not matter

  lemma DroppedFacts(t: Tables, b: nat, victim: int, x: int)
    requires RandomIndex(t.info, t.random) && victim in t.info && b < |t.news| && x in t.info
    ensures var info' := Dropped(t, b, victim).info;
      && (x != victim || t.info[x].refCount != 1 <==> x in info')
      && (x in info' ==> SameFacts(t.info[x], info'[x]))
      && (x != victim ==> SameRole(t.info[x], info'[x]))
  {
  }

  lemma FiledFacts(t: Tables, b: nat, id: int, victim: int, x: int)
    requires RandomIndex(t.info, t.random) && id in t.info && b < |t.news| && Room(t, b, victim) && x in t.info
    requires |t.news[b]| == NEW_BUCKET_SIZE ==> victim in t.info
    ensures var t' := Filed(t, b, id, victim);
      && id in t'.info && id in t'.news[b]
      && t'.info[id].refCount == t.info[id].refCount + (if id in t.news[b] then 0 else 1)
      && t'.info[id].inTried == t.info[id].inTried
      && (x in t'.info ==> SameFacts(t.info[x], t'.info[x]))
  {
    if id !in t.news[b] && |t.news[b]| == NEW_BUCKET_SIZE {
      DroppedFacts(Counted(t, id), b, victim, id);
      DroppedFacts(Counted(t, id), b, victim, x);
    }
  }

  lemma VictimKnown(t: Tables, env: Env, b: nat, victim: int)
    requires Inv(t, env) && Room(t, b, victim)
    ensures |t.news[b]| == NEW_BUCKET_SIZE ==> victim in t.info
  {
    if victim in t.news[b] {
      NewMember(t.info, t.news, multiset{}, b, victim);
    }
  }

  // ---------------------------------------------------------------- announcements

  /** An announcement is newer by enough: an hour and the penalty if it is less
      than a day old, a day and the penalty if not. */
  predicate NewerByEnough(i: Info, a: Address, penalty: int, now: int) {
    && a.time != 0
    && (|| i.time == 0
        || (now - a.time < DAY && a.time - i.time > HOUR + penalty)
        || (now - a.time >= DAY && a.time - i.time > DAY + penalty))
  }

  /** A known address announced again: what is recorded, and that it gains a
      reference exactly if it still says something newer, is not yet tried, has
      less than four, the dice fall for it, and the bucket does not have it. */
  lemma AnnouncedAgain(t: Tables, env: Env, a: Address, source: Ip, penalty: int, now: int, roll: nat, victim: int)
    requires Inv(t, env) && Room(t, NewBucket(env, a.addr.ip, source), victim)
    requires env.routable(a.addr.ip) && a.addr.ip in t.addr
    ensures var id := t.addr[a.addr.ip]; var (t', added) := Added(t, env, a, source, penalty, now, roll, victim);
      && !added && id in t.info && id in t'.info
      && var i, i' := t.info[id], t'.info[id];
         && i'.time == (if NewerByEnough(i, a, penalty, now) then
                          (if a.time > penalty then a.time - penalty else 0) % 0x1_0000_0000 else i.time)
         && i'.services == i.services + a.services
         && SameFacts(i', i.(time := i'.time, services := i'.services))
         && var more := && a.time != 0 && (i'.time == 0 || a.time > i'.time) && !i.inTried
                        && i.refCount < 4 && roll == 0 && id !in t.news[NewBucket(env, a.addr.ip, source)];
            && i'.refCount == i.refCount + (if more then 1 else 0)
            && (!more ==> t' == t.(info := t'.info))
            && (more ==> id in t'.news[NewBucket(env, a.addr.ip, source)])
  {
    hide NewBucket, Filed, NewBag, TriedBag;
    var b, id := NewBucket(env, a.addr.ip, source), t.addr[a.addr.ip];
    var i := Refreshed(t.info[id], a, penalty, now);
    VictimKnown(t, env, b, victim);
    DiceAreCast(t, env, id);
    FiledFacts(Touched(t, id, i), b, id, victim, id);
    if id in t.news[b] {
      FiledNothing(Touched(t, id, i), b, id, victim);
    }
  }

  lemma FiledNothing(t: Tables, b: nat, id: int, victim: int)
    requires RandomIndex(t.info, t.random) && id in t.info && b < |t.news| && id in t.news[b]
    requires |t.news[b]| == NEW_BUCKET_SIZE ==> victim in t.info
    ensures Filed(t, b, id, victim) == t
  {
  }

  /** An entry outside the tried table has one to four references, so there are
      dice to cast. */
  lemma DiceAreCast(t: Tables, env: Env, id: int)
    requires Inv(t, env) && id in t.info
    ensures !t.info[id].inTried ==> 1 <= t.info[id].refCount <= 4 && Pow2(t.info[id].refCount) > 1
  {
  }

  /** Without a penalty, a time that is recorded leaves nothing newer to say. */
  lemma RecordedAddsNothing(t: Tables, env: Env, a: Address, source: Ip, now: int, roll: nat, victim: int)
    requires Inv(t, env) && Room(t, NewBucket(env, a.addr.ip, source), victim)
    requires env.routable(a.addr.ip) && a.addr.ip in t.addr && a.time < 0x1_0000_0000
    requires t.addr[a.addr.ip] in t.info && NewerByEnough(t.info[t.addr[a.addr.ip]], a, 0, now)
    ensures var (t', added) := Added(t, env, a, source, 0, now, roll, victim);
      && t' == t.(info := t'.info) && t'.info[t.addr[a.addr.ip]].time == a.time
      && t'.info[t.addr[a.addr.ip]].refCount == t.info[t.addr[a.addr.ip]].refCount
  {
    hide Added, NewBucket, Inv;
    AnnouncedAgain(t, env, a, source, 0, now, roll, victim);
  }

  /** A new address: known from now on, with one reference and nothing tried. */
  lemma AnnouncedFirst(t: Tables, env: Env, a: Address, source: Ip, penalty: int, now: int, roll: nat, victim: int)
    requires Inv(t, env) && Room(t, NewBucket(env, a.addr.ip, source), victim)
    requires env.routable(a.addr.ip) && a.addr.ip !in t.addr
    ensures var id, b := t.idCount, NewBucket(env, a.addr.ip, source);
      var (t', added) := Added(t, env, a, source, penalty, now, roll, victim);
      && added && id !in t.info && id in t'.info && t'.idCount == id + 1 && id in t'.news[b]
      && var i := t'.info[id];
         && i.addr == a.addr && i.source == source && i.services == a.services
         && i.time == (if a.time > penalty then a.time - penalty else 0) % 0x1_0000_0000
         && i.lastSuccess == i.lastTry == i.attempts == 0 && !i.inTried && i.refCount == 1
  {
    hide NewBucket, Filed, NewBag, TriedBag;
    var i := Fresh(a, source, penalty);
    VictimKnown(t, env, NewBucket(env, a.addr.ip, source), victim);
    CreatedIndexes(t, i);
    NotYetFiled(t, env, NewBucket(env, a.addr.ip, source));
    FiledFacts(Created(t, i).(nNew := t.nNew + 1), NewBucket(env, a.addr.ip, source), t.idCount, victim, t.idCount);
    FiledCount(Created(t, i).(nNew := t.nNew + 1), NewBucket(env, a.addr.ip, source), t.idCount, victim);
  }

  lemma FiledCount(t: Tables, b: nat, id: int, victim: int)
    requires RandomIndex(t.info, t.random) && id in t.info && b < |t.news|
    requires |t.news[b]| == NEW_BUCKET_SIZE ==> victim in t.info
    ensures Filed(t, b, id, victim).idCount == t.idCount
  {
  }

  lemma NotYetFiled(t: Tables, env: Env, b: nat)
    requires Inv(t, env) && b < |t.news|
    ensures t.idCount !in t.info && t.idCount !in t.news[b]
  {
    if t.idCount in t.news[b] {
      NewMember(t.info, t.news, multiset{}, b, t.idCount);
    }
  }

  // ---------------------------------------------------------------- one operation

  /** What an entry knows after an operation that leaves it known.  A success
      clears the count of attempts, an attempt adds one, a connection renews the
      time if it is twenty minutes old; an announcement is recorded as above. */
  ghost predicate Follows(i: Info, op: Op, routable: bool, i': Info) {
    && i'.addr == i.addr && i'.source == i.source
    && i'.lastSuccess == (if op.Good? && op.s == i.addr then op.time else i.lastSuccess)
    && i'.lastTry == (if (op.Good? || op.Attempt?) && op.s == i.addr then op.time else i.lastTry)
    && i'.attempts == (if op.Good? && op.s == i.addr then 0
                       else if op.Attempt? && op.s == i.addr then i.attempts + 1 else i.attempts)
    && i'.services == (if op.Add? && routable && op.a.addr.ip == i.addr.ip then i.services + op.a.services
                       else i.services)
    && i'.time == (if op.Good? && op.s == i.addr then op.time % 0x1_0000_0000
                   else if op.Connect? && op.s == i.addr && op.time - i.time > 20 * MINUTE then op.time % 0x1_0000_0000
                   else if && op.Add? && routable && op.a.addr.ip == i.addr.ip
                           && NewerByEnough(i, op.a, op.penalty, op.now)
                   then (if op.a.time > op.penalty then op.a.time - op.penalty else 0) % 0x1_0000_0000
                   else i.time)
  }

  lemma StepFollows(t: Tables, env: Env, op: Op, x: int)
    requires Inv(t, env) && Allowed(t, env, op) && x in t.info && x in Step(t, env, op).info
    ensures Follows(t.info[x], op, op.Add? && env.routable(op.a.addr.ip), Step(t, env, op).info[x])
  {
    hide NewBag, TriedBag, NewBucket, TriedBucket;
    match op
    case Add(a, source, penalty, now, roll, picks, victim) =>
      AddFollows(t, env, op, x);
    case Good(s, time, origin, shuffled, pos) =>
      GoodFollows(t, env, op, x);
    case Attempt(s, time) =>
    case Connect(s, time) =>
    case GetAddr(places) =>
      ShuffledReorders(t, places);
  }

  lemma AddFollows(t: Tables, env: Env, op: Op, x: int)
    requires Inv(t, env) && op.Add? && Allowed(t, env, op) && x in t.info && x in Step(t, env, op).info
    ensures Follows(t.info[x], op, env.routable(op.a.addr.ip), Step(t, env, op).info[x])
  {
    hide NewBag, TriedBag, NewBucket, TriedBucket, Filed, Refreshed, Declined, IsVictim, Files, NewerByEnough;
    var b := NewBucket(env, op.a.addr.ip, op.source);
    VictimKnown(t, env, b, op.victim);
    if env.routable(op.a.addr.ip) {
      if op.a.addr.ip in t.addr {
        var id := t.addr[op.a.addr.ip];
        var i := Refreshed(t.info[id], op.a, op.penalty, op.now);
        AnnouncedAgain(t, env, op.a, op.source, op.penalty, op.now, op.roll, op.victim);
        RefreshedPlace(t.info[id], op.a, op.penalty, op.now);
        FiledFacts(Touched(t, id, i), b, id, op.victim, x);
      } else {
        var i := Fresh(op.a, op.source, op.penalty);
        CreatedIndexes(t, i);
        FiledFacts(Created(t, i).(nNew := t.nNew + 1), b, t.idCount, op.victim, x);
      }
    }
  }

  lemma RefreshedPlace(i: Info, a: Address, penalty: int, now: int)
    ensures Refreshed(i, a, penalty, now).randomPos == i.randomPos
  {
  }

  lemma GoodFollows(t: Tables, env: Env, op: Op, x: int)
    requires Inv(t, env) && op.Good? && Allowed(t, env, op) && x in t.info && x in Step(t, env, op).info
    ensures Follows(t.info[x], op, false, Step(t, env, op).info[x])
  {
    hide NewBag, TriedBag, NewBucket, TriedBucket;
    if Known(t, op.s) {
      var id := IdOf(t, op.s);
      var i := MarkedGood(t.info[id], op.time);
      TouchKeeps(t, env, multiset{}, id, i);
      if !t.info[id].inTried {
        var _ := FindBucket(t, env, id);
        MadeTriedFacts(Touched(t, id, i), env, id, op.origin, op.shuffled, op.pos, x);
      }
    }
  }

  lemma MadeTriedFacts(t: Tables, env: Env, id: int, origin: nat, shuffled: seq<int>, pos: nat, x: int)
    requires Inv(t, env) && id in t.info && origin < |t.news| && x in t.info
    requires Shuffle(t.tried[TriedBucket(env, t.info[id].addr)], shuffled, pos)
          || |t.tried[TriedBucket(env, t.info[id].addr)]| < TRIED_BUCKET_SIZE
    ensures var info' := MadeTried(t, env, id, origin, shuffled, pos).info;
      x in info' && SameFacts(t.info[x], info'[x])
  {
    hide NewBag, TriedBag, NewBucket, TriedBucket;
    var b := TriedBucket(env, t.info[id].addr);
    if |t.tried[b]| >= TRIED_BUCKET_SIZE {
      ShuffledMember(t, env, b, shuffled, pos);
    }
  }

  // ---------------------------------------------------------------- a success

  /** Marked as good, an entry that was not yet tried is in the tried bucket of
      its service and in no new one.  If it had to evict another, it has that
      one's place, and that one is in the new bucket it comes from if there is
      room, and otherwise in one that the first has left. */
  lemma MarkedGoodMoves(t: Tables, env: Env, op: Op)
    requires Inv(t, env) && op.Good? && Allowed(t, env, op) && Known(t, op.s) && !t.info[IdOf(t, op.s)].inTried
    ensures var id, b, t' := IdOf(t, op.s), TriedBucket(env, op.s), Step(t, env, op);
      && id in t'.info && t'.info[id].inTried && t'.info[id].refCount == 0 && id in t'.tried[b]
      && (forall c :: 0 <= c < |t'.news| ==> id !in t'.news[c])
    ensures var id, b, t' := IdOf(t, op.s), TriedBucket(env, op.s), Step(t, env, op);
      if |t.tried[b]| < TRIED_BUCKET_SIZE then t'.tried[b] == t.tried[b] + [id]
      else
        && op.pos < |op.shuffled| && t'.tried[b] == op.shuffled[op.pos := id]
        && var out := op.shuffled[op.pos];
           && out in t.info && out in t'.info && !t'.info[out].inTried && t'.info[out].refCount == 1
           && var home := NewBucket(env, t.info[out].addr.ip, t.info[out].source);
              (if |t.news[home] - {id}| < NEW_BUCKET_SIZE then out in t'.news[home]
               else op.origin < |t'.news| && id in t.news[op.origin] && out in t'.news[op.origin])
  {
    hide NewBag, TriedBag, NewBucket, TriedBucket;
    var id := IdOf(t, op.s);
    var i := MarkedGood(t.info[id], op.time);
    TouchKeeps(t, env, multiset{}, id, i);
    var _ := FindBucket(t, env, id);
    var t1 := Touched(t, id, i);
    LastReferences(t1, env, id);
    var b := TriedBucket(env, op.s);
    if |t.tried[b]| >= TRIED_BUCKET_SIZE {
      ShuffledMember(t1, env, b, op.shuffled, op.pos);
      assert op.shuffled[op.pos := id][op.pos] == id;
    }
  }

  lemma LastReferences(t: Tables, env: Env, id: int)
    requires Inv(t, env) && id in t.info && !t.info[id].inTried
    ensures t.info[id].refCount == NewBag(t.news)[id]
  {
    assert (NewBag(t.news) + multiset{})[id] == NewRefs(t.info, id);
  }

  // ---------------------------------------------------------------- whole runs

  predicate IsSuccess(op: Op, s: Service) { op.Good? && op.s == s }
  predicate IsTry(op: Op, s: Service) { op.Attempt? && op.s == s }

  function Tries(run: seq<Op>, s: Service): nat {
    if run == [] then 0 else (if IsTry(run[0], s) then 1 else 0) + Tries(run[1..], s)
  }

  predicate NoSuccess(run: seq<Op>, s: Service) {
    forall j :: 0 <= j < |run| ==> !IsSuccess(run[j], s)
  }

  /** An entry that stays known remembers the time of the service's last success,
      and counts the attempts since. */
  lemma {:induction false} RunRemembers(t: Tables, env: Env, run: seq<Op>, t': Tables, x: int)
    requires Inv(t, env) && Leads(t, env, run, t') && x in t.info && x in t'.info
    ensures t'.info[x].addr == t.info[x].addr
    ensures var s := t.info[x].addr;
      && (NoSuccess(run, s) ==>
            && t'.info[x].lastSuccess == t.info[x].lastSuccess
            && t'.info[x].attempts == t.info[x].attempts + Tries(run, s))
      && forall k :: 0 <= k < |run| && IsSuccess(run[k], s) && NoSuccess(run[k + 1..], s) ==>
           t'.info[x].lastSuccess == run[k].time && t'.info[x].attempts == Tries(run[k + 1..], s)
    decreases |run|
  {
    hide Inv, Allowed, Step;
    if run != [] {
      var t1, rest, s := Step(t, env, run[0]), run[1..], t.info[x].addr;
      StepKeeps(t, env, run[0]);
      StaysKnown(t, env, run, t', x);
      StepFollows(t, env, run[0], x);
      RunRemembers(t1, env, rest, t', x);
      assert NoSuccess(run, s) ==> NoSuccess(rest, s) && !IsSuccess(run[0], s);
      forall k | 0 <= k < |run| && IsSuccess(run[k], s) && NoSuccess(run[k + 1..], s)
        ensures t'.info[x].lastSuccess == run[k].time && t'.info[x].attempts == Tries(run[k + 1..], s)
      {
        if k > 0 {
          assert rest[k - 1] == run[k] && rest[k..] == run[k + 1..];
        }
      }
    }
  }

  /** Ids are not used again. */
  lemma StepIds(t: Tables, env: Env, op: Op)
    requires Inv(t, env) && Allowed(t, env, op)
    ensures t.idCount <= Step(t, env, op).idCount
    ensures forall x :: x in Step(t, env, op).info ==> x in t.info || x >= t.idCount
  {
    hide NewBag, TriedBag, NewBucket, TriedBucket, Refreshed, Declined;
    match op
    case Add(a, source, penalty, now, roll, picks, victim) =>
      AddIds(t, env, op);
    case Good(s, time, origin, shuffled, pos) =>
      GoodIds(t, env, op);
    case Attempt(s, time) =>
    case Connect(s, time) =>
    case GetAddr(places) =>
      ShuffledReorders(t, places);
  }

  lemma FiledIds(t: Tables, b: nat, id: int, victim: int)
    requires RandomIndex(t.info, t.random) && id in t.info && b < |t.news|
    requires |t.news[b]| == NEW_BUCKET_SIZE ==> victim in t.info
    ensures Filed(t, b, id, victim).idCount == t.idCount
    ensures forall x :: x in Filed(t, b, id, victim).info ==> x in t.info
  {
  }

  lemma AddIds(t: Tables, env: Env, op: Op)
    requires Inv(t, env) && op.Add? && Allowed(t, env, op)
    ensures t.idCount <= Step(t, env, op).idCount
    ensures forall x :: x in Step(t, env, op).info ==> x in t.info || x >= t.idCount
  {
    hide NewBag, TriedBag, NewBucket, TriedBucket, Filed, Refreshed, Declined, IsVictim, Files;
    var b := NewBucket(env, op.a.addr.ip, op.source);
    VictimKnown(t, env, b, op.victim);
    if env.routable(op.a.addr.ip) {
      if op.a.addr.ip in t.addr {
        var id := t.addr[op.a.addr.ip];
        var i := Refreshed(t.info[id], op.a, op.penalty, op.now);
        RefreshedPlace(t.info[id], op.a, op.penalty, op.now);
        FiledIds(Touched(t, id, i), b, id, op.victim);
      } else {
        var i := Fresh(op.a, op.source, op.penalty);
        CreatedIndexes(t, i);
        FiledIds(Created(t, i).(nNew := t.nNew + 1), b, t.idCount, op.victim);
      }
    }
  }

  lemma GoodIds(t: Tables, env: Env, op: Op)
    requires Inv(t, env) && op.Good? && Allowed(t, env, op)
    ensures Step(t, env, op).idCount == t.idCount && Step(t, env, op).info.Keys == t.info.Keys
  {
    hide NewBag, TriedBag, NewBucket, TriedBucket;
    if Known(t, op.s) {
      var id := IdOf(t, op.s);
      var i := MarkedGood(t.info[id], op.time);
      TouchKeeps(t, env, multiset{}, id, i);
      if !t.info[id].inTried {
        var _ := FindBucket(t, env, id);
        MadeTriedIds(Touched(t, id, i), env, id, op.origin, op.shuffled, op.pos);
      }
    }
  }

  lemma MadeTriedIds(t: Tables, env: Env, id: int, origin: nat, shuffled: seq<int>, pos: nat)
    requires Inv(t, env) && id in t.info && origin < |t.news|
    requires Shuffle(t.tried[TriedBucket(env, t.info[id].addr)], shuffled, pos)
          || |t.tried[TriedBucket(env, t.info[id].addr)]| < TRIED_BUCKET_SIZE
    ensures var t' := MadeTried(t, env, id, origin, shuffled, pos);
      t'.info.Keys == t.info.Keys && t'.idCount == t.idCount
  {
    hide NewBag, TriedBag, NewBucket, TriedBucket;
    var b := TriedBucket(env, t.info[id].addr);
    if |t.tried[b]| >= TRIED_BUCKET_SIZE {
      ShuffledMember(t, env, b, shuffled, pos);
    }
  }

  lemma {:induction false} StaysGone(t: Tables, env: Env, run: seq<Op>, t': Tables, x: int)
    requires Inv(t, env) && Leads(t, env, run, t') && x !in t.info && x < t.idCount
    ensures x !in t'.info
    decreases |run|
  {
    hide Inv, Allowed, Step;
    if run != [] {
      StepIds(t, env, run[0]);
      StepKeeps(t, env, run[0]);
      StaysGone(Step(t, env, run[0]), env, run[1..], t', x);
    }
  }

  lemma StaysKnown(t: Tables, env: Env, run: seq<Op>, t': Tables, x: int)
    requires Inv(t, env) && run != [] && Leads(t, env, run, t') && x in t.info && x in t'.info
    ensures x in Step(t, env, run[0]).info
  {
    assert x < t.idCount;
    hide Inv, Allowed, Step;
    StepKeeps(t, env, run[0]);
    StepIds(t, env, run[0]);
    if x !in Step(t, env, run[0]).info {
      StaysGone(Step(t, env, run[0]), env, run[1..], t', x);
    }
  }

  // ---------------------------------------------------------------- other functions

  /** An entry is kept if it was tried within the last minute; or if it was seen
      in the last thirty days and not more than ten minutes ahead, and there was
      a success or fewer than three attempts, and there was a success within a
      week or fewer than ten attempts. */
  lemma KeptExactly(i: Info, now: int)
    ensures !IsTerrible(i, now) <==>
      || (i.lastTry != 0 && now - i.lastTry <= MINUTE)
      || (&& i.time != 0 && now - 30 * DAY <= i.time <= now + 10 * MINUTE
          && (i.lastSuccess != 0 || i.attempts < 3)
          && (now - i.lastSuccess <= 7 * DAY || i.attempts < 10))
  {
  }

  /** GetAddr_ gives 23 of every hundred, rounded down, and no more than 2500. */
  lemma ShareGiven(n: nat)
    ensures var r := NodesToReturn(n);
      && r <= 2500 && 100 * r <= 23 * n && (r < 2500 ==> 23 * n < 100 * (r + 1))
  {
  }
}
