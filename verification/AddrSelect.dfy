/** What `SelectTried` of src/addrman.cpp settles on: it brings a few entries to
    the front of a bucket and compares them, but returns the position that the
    chosen one was brought from. */
module AddrSelect {
  import opened AddrTables

  const INSPECTED: nat := 4

  /** In round k the entry at places[k], which is k or later, changes places
      with the one at k. */
  ghost predicate Places(s: seq<int>, places: seq<nat>) {
    |places| <= |s| && forall k :: 0 <= k < |places| ==> k <= places[k] < |s|
  }

  function Traded(s: seq<int>, i: nat, j: nat): seq<int>
    requires i < |s| && j < |s|
  {
    s[j := s[i]][i := s[j]]
  }

  ghost function Fronted(s: seq<int>, places: seq<nat>): (r: seq<int>)
    requires Places(s, places)
    ensures |r| == |s|
  {
    if places == [] then s
    else Traded(Fronted(s, places[..|places| - 1]), |places| - 1, places[|places| - 1])
  }

  function LastSuccess(info: InfoMap, id: int): int { if id in info then info[id].lastSuccess else 0 }

  /** The round that decides among the first n entries: the least last success,
      and of equal ones the first. */
  function Deciding(info: InfoMap, s: seq<int>, n: nat): (k: nat)
    requires 0 < n <= |s|
    ensures k < n
  {
    if n == 1 then 0
    else
      var k := Deciding(info, s, n - 1);
      if LastSuccess(info, s[n - 1]) < LastSuccess(info, s[k]) then n - 1 else k
  }

  lemma {:induction false} DecidingIs(info: InfoMap, s: seq<int>, n: nat)
    requires 0 < n <= |s|
    ensures var k := Deciding(info, s, n);
      && (forall j :: 0 <= j < n ==> LastSuccess(info, s[k]) <= LastSuccess(info, s[j]))
      && (forall j :: 0 <= j < k ==> LastSuccess(info, s[k]) < LastSuccess(info, s[j]))
  {
    if n > 1 {
      DecidingIs(info, s, n - 1);
    }
  }

  lemma DecidingFirst(info: InfoMap, s: seq<int>)
    requires s != []
    ensures Deciding(info, s, 1) == 0
  {
  }

  /** It depends on those entries only. */
  lemma {:induction false} DecidingSame(info: InfoMap, s: seq<int>, t: seq<int>, n: nat)
    requires 0 < n <= |s| && n <= |t| && forall k :: 0 <= k < n ==> s[k] == t[k]
    ensures Deciding(info, s, n) == Deciding(info, t, n)
  {
    if n > 1 {
      DecidingSame(info, s, t, n - 1);
    }
  }

  lemma {:induction false} FrontedBag(s: seq<int>, places: seq<nat>)
    requires Places(s, places)
    ensures multiset(Fronted(s, places)) == multiset(s)
  {
    if places != [] {
      var n := |places| - 1;
      FrontedBag(s, places[..n]);
      TradedBag(Fronted(s, places[..n]), n, places[n]);
    }
  }

  lemma TradedBag(s: seq<int>, i: nat, j: nat)
    requires i < |s| && j < |s|
    ensures multiset(Traded(s, i, j)) == multiset(s) && s[j] in multiset(s)
  {
  }

  /** Every round inspects the entry that was at its place when it came, and
      that entry stays where the round put it. */
  lemma {:induction false} InspectedStays(s: seq<int>, places: seq<nat>, k: nat)
    requires Places(s, places) && k < |places|
    ensures Fronted(s, places)[k] == Fronted(s, places[..k])[places[k]]
    decreases |places|
  {
    var n := |places| - 1;
    if k < n {
      InspectedStays(s, places[..n], k);
      assert places[..n][..k] == places[..k];
    }
  }

  /** The position returned. */
  ghost function Position(info: InfoMap, s: seq<int>, places: seq<nat>): int
    requires Places(s, places)
  {
    if places == [] then -1 else places[Deciding(info, Fronted(s, places), |places|)]
  }

  lemma NothingYet(info: InfoMap, s: seq<int>)
    ensures Places(s, []) && Fronted(s, []) == s && Position(info, s, []) == -1
  {
  }

  /** One more round. */
  lemma NextRound(info: InfoMap, s: seq<int>, places: seq<nat>, pos: nat)
    requires Places(s, places) && |places| <= pos < |s|
    ensures Places(s, places + [pos])
    ensures var n, cur, next := |places|, Fronted(s, places), Fronted(s, places + [pos]);
      && next == Traded(cur, n, pos) && next[n] == cur[pos] && cur[pos] in s
      && (n == 0 ==> Deciding(info, next, 1) == 0 && Position(info, s, places + [pos]) == pos)
  {
    hide Deciding;
    var n, cur := |places|, Fronted(s, places);
    assert (places + [pos])[..n] == places;
    DecidingFirst(info, Fronted(s, places + [pos]));
    FrontedBag(s, places);
    assert cur[pos] in multiset(cur);
  }

  /** It decides if its entry is better than the best so far. */
  lemma NextDecides(info: InfoMap, s: seq<int>, places: seq<nat>, pos: nat)
    requires Places(s, places) && |places| <= pos < |s| && places != []
    ensures Places(s, places + [pos])
    ensures var n, cur, next := |places|, Fronted(s, places), Fronted(s, places + [pos]);
      var k := Deciding(info, cur, n);
      var better := LastSuccess(info, cur[pos]) < LastSuccess(info, cur[k]);
      && Deciding(info, next, n + 1) == (if better then n else k)
      && next[Deciding(info, next, n + 1)] == (if better then cur[pos] else cur[k])
      && Position(info, s, places + [pos]) == (if better then pos else Position(info, s, places))
  {
    NextRound(info, s, places, pos);
    var n, cur, next := |places|, Fronted(s, places), Fronted(s, places + [pos]);
    DecidingSame(info, cur, next, n);
  }

  /** The bucket is permuted, and the position is one in it. */
  lemma PositionFits(info: InfoMap, s: seq<int>, places: seq<nat>)
    requires Places(s, places)
    ensures multiset(Fronted(s, places)) == multiset(s)
    ensures if places == [] then Position(info, s, places) == -1 else 0 <= Position(info, s, places) < |s|
  {
    FrontedBag(s, places);
  }

  /** In a bucket of different entries the position returned holds the entry
      chosen exactly if the round that decides drew its own place. */
  lemma PositionIsRight(info: InfoMap, s: seq<int>, places: seq<nat>)
    requires Places(s, places) && places != []
    requires forall i, j :: 0 <= i < j < |s| ==> s[i] != s[j]
    ensures var r, k := Fronted(s, places), Deciding(info, Fronted(s, places), |places|);
      0 <= Position(info, s, places) < |r| && (r[Position(info, s, places)] == r[k] <==> places[k] == k)
  {
    FrontedBag(s, places);
    DifferentBag(s, Fronted(s, places));
  }

  lemma {:induction false} CountOf(s: seq<int>, x: int)
    requires forall i, j :: 0 <= i < j < |s| ==> s[i] != s[j]
    ensures multiset(s)[x] <= 1
  {
    if s != [] {
      var n := |s| - 1;
      CountOf(s[..n], x);
      assert s == s[..n] + [s[n]];
      if s[n] == x {
        assert x !in s[..n];
      }
    }
  }

  lemma DifferentBag(s: seq<int>, r: seq<int>)
    requires multiset(r) == multiset(s) && forall i, j :: 0 <= i < j < |s| ==> s[i] != s[j]
    ensures forall i, j :: 0 <= i < j < |r| ==> r[i] != r[j]
  {
    forall i, j | 0 <= i < j < |r| ensures r[i] != r[j] {
      CountOf(s, r[i]);
      TwoOf(r, i, j);
    }
  }

  lemma TwoOf(r: seq<int>, i: nat, j: nat)
    requires i < j < |r|
    ensures r[i] == r[j] ==> multiset(r)[r[i]] >= 2
  {
    assert r == r[..i] + [r[i]] + r[i + 1..j] + [r[j]] + r[j + 1..];
  }

  /** The tried buckets of consistent tables hold different entries. */
  lemma TriedBucketsDiffer(t: Tables, env: Env, b: nat)
    requires Inv(t, env) && b < |t.tried|
    ensures forall i, j :: 0 <= i < j < |t.tried[b]| ==> t.tried[b][i] != t.tried[b][j]
  {
    var s := t.tried[b];
    TriedBagUpdate(t.tried, b, []);
    forall i, j | 0 <= i < j < |s| ensures s[i] != s[j] {
      TwoOf(s, i, j);
      assert TriedBag(t.tried)[s[i]] == TriedRefs(t.info, s[i]) <= 1;
      assert multiset(s)[s[i]] <= TriedBag(t.tried)[s[i]];
    }
  }

  /** What SelectTried leaves of a bucket and returns after these draws. */
  ghost predicate Picked(info: InfoMap, s: seq<int>, places: seq<nat>, shuffled: seq<int>, pos: int) {
    && Places(s, places) && |places| == (if |s| < INSPECTED then |s| else INSPECTED)
    && shuffled == Fronted(s, places) && pos == Position(info, s, places)
  }

  /** It depends on the last successes of the bucket's entries only. */
  lemma PickedSame(info: InfoMap, info': InfoMap, s: seq<int>, places: seq<nat>, shuffled: seq<int>, pos: int)
    requires Picked(info, s, places, shuffled, pos)
    requires forall x :: x in s ==> LastSuccess(info, x) == LastSuccess(info', x)
    ensures Picked(info', s, places, shuffled, pos)
  {
    hide LastSuccess, Deciding, Fronted, Places;
    if places != [] {
      FrontedBag(s, places);
      forall x | x in shuffled ensures LastSuccess(info, x) == LastSuccess(info', x) {
        assert x in multiset(shuffled) && x in multiset(s);
      }
      SameDeciding(info, info', shuffled, |places|);
    }
  }

  lemma {:induction false} SameDeciding(info: InfoMap, info': InfoMap, s: seq<int>, n: nat)
    requires 0 < n <= |s| && forall x :: x in s ==> LastSuccess(info, x) == LastSuccess(info', x)
    ensures Deciding(info, s, n) == Deciding(info', s, n)
  {
    if n > 1 {
      SameDeciding(info, info', s, n - 1);
    }
  }

  /** In any bucket of different entries, draws that bring one from behind the
      inspected places to the front, where it is the one chosen, have the entry
      it changed places with returned instead. */
  lemma WrongPosition(info: InfoMap, s: seq<int>, p: nat)
    requires INSPECTED <= p < |s| && forall i, j :: 0 <= i < j < |s| ==> s[i] != s[j]
    requires forall k :: 1 <= k < INSPECTED ==> LastSuccess(info, s[p]) <= LastSuccess(info, s[k])
    ensures var places, r := [p, 1, 2, 3], Traded(s, 0, p);
      && Picked(info, s, places, r, p) && Deciding(info, r, INSPECTED) == 0
      && r[0] == s[p] && r[p] == s[0] && r[p] != r[0]
  {
    hide LastSuccess, Deciding, Position, Fronted, Places;
    var r := Traded(s, 0, p);
    NothingYet(info, s);
    NextRound(info, s, [], p);
    assert [] + [p] == [p] && [p] + [1] == [p, 1] && [p, 1] + [2] == [p, 1, 2] && [p, 1, 2] + [3] == [p, 1, 2, 3];
    StaysFirst(info, s, [p], r);
    StaysFirst(info, s, [p, 1], r);
    StaysFirst(info, s, [p, 1, 2], r);
  }

  /** A round that draws its own place, for an entry no better than the first. */
  lemma StaysFirst(info: InfoMap, s: seq<int>, places: seq<nat>, r: seq<int>)
    requires Places(s, places) && 0 < |places| < |s| && r == Fronted(s, places)
    requires Deciding(info, r, |places|) == 0 && LastSuccess(info, r[0]) <= LastSuccess(info, r[|places|])
    ensures var next := places + [|places|];
      && Places(s, next) && Fronted(s, next) == r && Deciding(info, r, |next|) == 0
      && Position(info, s, next) == Position(info, s, places)
  {
    hide LastSuccess, Deciding, Position, Fronted, Places;
    NextRound(info, s, places, |places|);
    NextDecides(info, s, places, |places|);
  }
}
