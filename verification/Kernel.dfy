/** Stake modifiers along a chain of blocks (src/kernel.cpp).  A chain lists the
    blocks from genesis on; going back along it is going down the list. */
module Kernel {
  import opened Binary
  import opened KernelSelection

  const V04_SWITCH_TIME: nat := 1736294400
  const V04_TEST_SWITCH_TIME: nat := 1395700000

  predicate IsProtocolV04(net: Net, time: nat) {
    time >= if net.testNet then V04_TEST_SWITCH_TIME else V04_SWITCH_TIME
  }

  function Interval(time: nat): nat { time / MODIFIER_INTERVAL }

  // ---------------------------------------------------------------- the last modifier

  /** The last block of the chain that generated a modifier, or -1. */
  function LastGenerated(chain: seq<Index>): int {
    if chain == [] then -1
    else if chain[|chain| - 1].generated then |chain| - 1
    else LastGenerated(chain[..|chain| - 1])
  }

  lemma {:induction false} LastGeneratedIs(chain: seq<Index>)
    ensures var g := LastGenerated(chain);
      && -1 <= g < |chain| && (g >= 0 ==> chain[g].generated)
      && forall k :: g < k < |chain| ==> !chain[k].generated
  {
    if chain != [] && !chain[|chain| - 1].generated {
      LastGeneratedIs(chain[..|chain| - 1]);
    }
  }

  method GetLastStakeModifier(chain: seq<Index>) returns (ok: bool, nStakeModifier: nat, nModifierTime: nat)
    ensures ok <==> LastGenerated(chain) >= 0
    ensures ok ==> LastGenerated(chain) < |chain|
    ensures ok ==> nStakeModifier == chain[LastGenerated(chain)].modifier
    ensures ok ==> nModifierTime == chain[LastGenerated(chain)].time
  {
    if chain == [] {
      return false, 0, 0;
    }
    var p := |chain| - 1;
    assert chain[..p + 1] == chain;
    while p > 0 && !chain[p].generated
      invariant 0 <= p < |chain| && LastGenerated(chain) == LastGenerated(chain[..p + 1])
    {
      assert chain[..p + 1][..p] == chain[..p];
      p := p - 1;
    }
    assert chain[..p + 1][..p] == chain[..p];
    if !chain[p].generated {
      return false, 0, 0;
    }
    return true, chain[p].modifier, chain[p].time;
  }

  // ---------------------------------------------------------------- the candidates

  function CandidateOf(i: Index): Candidate { (i.time, i.hash) }

  /** Where the blocks at the end of the chain with times from `start` on begin. */
  function FirstCandidate(chain: seq<Index>, start: int): (k: nat)
    ensures k <= |chain|
    ensures forall j :: k <= j < |chain| ==> chain[j].time >= start
    ensures k > 0 ==> chain[k - 1].time < start
  {
    if chain == [] || chain[|chain| - 1].time < start then |chain|
    else FirstCandidate(chain[..|chain| - 1], start)
  }

  function Candidates(chain: seq<Index>): (s: seq<Candidate>)
    ensures |s| == |chain|
  {
    seq(|chain|, k requires 0 <= k < |chain| => CandidateOf(chain[k]))
  }

  ghost predicate Permuted(a: seq<Candidate>, b: seq<Candidate>) { multiset(a) == multiset(b) }

  /** Candidates in order of time and hash. */
  method Sort(v: seq<Candidate>) returns (s: seq<Candidate>)
    ensures Sorted(s) && Permuted(s, v)
    ensures forall j, k :: 0 <= j < k < |s| ==> s[j].0 < s[k].0 || (s[j].0 == s[k].0 && s[j].1 <= s[k].1)
  {
    s := [];
    assert v[..0] == [];
    for n := 0 to |v|
      invariant Sorted(s) && Permuted(s, v[..n])
    {
      assert v[..n + 1] == v[..n] + [v[n]];
      s := Insert(s, v[n]);
    }
    assert v[..|v|] == v;
  }

  method Insert(s: seq<Candidate>, c: Candidate) returns (r: seq<Candidate>)
    requires Sorted(s)
    ensures Sorted(r) && multiset(r) == multiset(s) + multiset{c}
  {
    var k := |s|;
    while k > 0 && !Before(s[k - 1], c)
      invariant 0 <= k <= |s|
      invariant forall j :: k <= j < |s| ==> !Before(s[j], c)
    {
      k := k - 1;
    }
    r := s[..k] + [c] + s[k..];
    assert s == s[..k] + s[k..];
    InsertedSorted(s, c, k);
  }

  lemma InsertedSorted(s: seq<Candidate>, c: Candidate, k: nat)
    requires Sorted(s) && k <= |s|
    requires k > 0 ==> Before(s[k - 1], c)
    requires forall j :: k <= j < |s| ==> !Before(s[j], c)
    ensures Sorted(s[..k] + [c] + s[k..])
  {
    var r := s[..k] + [c] + s[k..];
    forall i, j | 0 <= i < j < |r| ensures Before(r[i], r[j]) {
      if i < k && j == k {
        assert i < k - 1 ==> Before(s[i], s[k - 1]);
      } else if i == k {
        assert !Before(s[j - 1], c);
      } else {
        assert Before(s[if i < k then i else i - 1], s[if j < k then j else j - 1]);
      }
    }
  }

  /** Sorting leaves no choice. */
  lemma {:induction false} SortedUnique(a: seq<Candidate>, b: seq<Candidate>)
    requires Sorted(a) && Sorted(b) && Permuted(a, b)
    ensures a == b
  {
    assert |a| == |multiset(a)| == |multiset(b)| == |b|;
    if a != [] {
      assert a == [a[0]] + a[1..] && b == [b[0]] + b[1..];
      HeadsEqual(a, b);
      assert multiset(a[1..]) == multiset(a) - multiset{a[0]};
      assert multiset(b[1..]) == multiset(b) - multiset{b[0]};
      SortedUnique(a[1..], b[1..]);
    }
  }

  lemma HeadsEqual(a: seq<Candidate>, b: seq<Candidate>)
    requires Sorted(a) && Sorted(b) && Permuted(a, b) && a != [] && b != []
    ensures a[0] == b[0]
  {
    assert a[0] in multiset(b) && b[0] in multiset(a);
    var j :| 0 <= j < |b| && b[j] == a[0];
    var k :| 0 <= k < |a| && a[k] == b[0];
    assert j == 0 || Before(b[0], b[j]);
    assert k == 0 || Before(a[0], a[k]);
  }

  // ---------------------------------------------------------------- the next modifier

  /** Blocks in the index under their own, different hashes. */
  ghost predicate InIndex(net: Net, chain: seq<Index>) {
    && (forall k :: 0 <= k < |chain| ==> chain[k].hash in net.index && net.index[chain[k].hash] == chain[k])
    && forall j, k :: 0 <= j < k < |chain| ==> chain[j].hash != chain[k].hash
  }

  /** Whether a block of that time behind the chain generates a modifier. */
  predicate Generates(net: Net, chain: seq<Index>, time: nat)
    requires chain != [] && 0 <= LastGenerated(chain) < |chain|
  {
    var last := chain[LastGenerated(chain)];
    && Interval(last.time) < Interval(chain[|chain| - 1].time)
    && (Interval(last.time) < Interval(time) || !IsProtocolV04(net, time))
  }

  function SelectionStart(chain: seq<Index>): int
    requires chain != []
  {
    Interval(chain[|chain| - 1].time) * MODIFIER_INTERVAL - Sections(64)
  }

  /** The blocks to choose from. */
  function Recent(chain: seq<Index>): seq<Index>
    requires chain != []
  {
    chain[FirstCandidate(chain, SelectionStart(chain))..]
  }

  /** The modifier that 64 rounds over the candidates give. */
  ghost predicate Selected(net: Net, chain: seq<Index>, s: seq<Candidate>, picks: seq<nat>, modifier: nat)
    requires chain != [] && 0 <= LastGenerated(chain) < |chain|
  {
    && Sorted(s) && Permuted(s, Candidates(Recent(chain))) && Distinct(s) && Indexed(net, s)
    && Run(net, s, SelectionStart(chain), chain[LastGenerated(chain)].modifier, picks)
    && |picks| == Min(64, |s|) && modifier == NumberOf(Entropy(net, s, picks))
  }

  /** What a block of that time behind the chain has to record. */
  ghost predicate IsNext(net: Net, chain: seq<Index>, time: nat, modifier: nat, generated: bool) {
    if chain == [] then generated && modifier == 0
    else
      && 0 <= LastGenerated(chain) < |chain|
      && generated == Generates(net, chain, time)
      && (if generated then exists s, picks :: Selected(net, chain, s, picks, modifier)
          else modifier == chain[LastGenerated(chain)].modifier)
  }

  method ComputeNextStakeModifier(net: Net, chain: seq<Index>, time: nat)
      returns (ok: bool, nStakeModifier: nat, fGenerated: bool)
    requires InIndex(net, chain)
    ensures ok <==> chain == [] || LastGenerated(chain) >= 0
    ensures ok ==> IsNext(net, chain, time, nStakeModifier, fGenerated)
  {
    if chain == [] {
      return true, 0, true;
    }
    var pindexPrev := chain[|chain| - 1];
    var nModifierTime;
    ok, nStakeModifier, nModifierTime := GetLastStakeModifier(chain);
    fGenerated := false;
    if !ok {
      return;
    }
    if Interval(nModifierTime) >= Interval(pindexPrev.time) {
      return;
    }
    if Interval(nModifierTime) >= Interval(time) {
      if IsProtocolV04(net, time) {
        return;
      }
    }
    nStakeModifier := NewModifier(net, chain, nStakeModifier);
    fGenerated := true;
  }

  /** Sort the candidates and go through the rounds. */
  method NewModifier(net: Net, chain: seq<Index>, prevModifier: nat) returns (nStakeModifierNew: nat)
    requires chain != [] && InIndex(net, chain)
    requires 0 <= LastGenerated(chain) < |chain| && prevModifier == chain[LastGenerated(chain)].modifier
    ensures exists s, picks :: Selected(net, chain, s, picks, nStakeModifierNew)
  {
    hide Run, InIndex, Entropy, NumberOf, Candidates, LastGenerated, FirstCandidate;
    var nSelectionInterval := GetStakeModifierSelectionInterval();
    var start := Interval(chain[|chain| - 1].time) * MODIFIER_INTERVAL - nSelectionInterval;
    var v := Collect(chain, start);
    var s := Sort(v);
    SortedCandidates(net, chain, s);
    var ok; ghost var picks;
    ok, nStakeModifierNew, picks := SelectRounds(net, s, start, prevModifier);
    assert Selected(net, chain, s, picks, nStakeModifierNew);
  }

  /** Go back along the chain while the times reach the start. */
  method Collect(chain: seq<Index>, start: int) returns (v: seq<Candidate>)
    ensures v == Candidates(chain[FirstCandidate(chain, start)..])
  {
    hide FirstCandidate, Candidates;
    v := [];
    var p := |chain|;
    assert chain[..p] == chain;
    NothingCollected(chain);
    while p > 0 && chain[p - 1].time >= start
      invariant 0 <= p <= |chain|
      invariant FirstCandidate(chain[..p], start) == FirstCandidate(chain, start)
      invariant v == Candidates(chain[p..])
    {
      OneCollected(chain, start, p - 1);
      p := p - 1;
      v := [CandidateOf(chain[p])] + v;
    }
    AllCollected(chain, start, p);
  }

  lemma NothingCollected(chain: seq<Index>)
    ensures Candidates(chain[|chain|..]) == []
  {
  }

  lemma OneCollected(chain: seq<Index>, start: int, p: nat)
    requires p < |chain| && chain[p].time >= start
    ensures FirstCandidate(chain[..p + 1], start) == FirstCandidate(chain[..p], start)
    ensures Candidates(chain[p..]) == [CandidateOf(chain[p])] + Candidates(chain[p + 1..])
  {
    assert chain[..p + 1][..p] == chain[..p];
  }

  lemma AllCollected(chain: seq<Index>, start: int, p: nat)
    requires p <= |chain| && (p > 0 ==> chain[p - 1].time < start)
    ensures FirstCandidate(chain[..p], start) == p
  {
  }

  lemma SortedCandidates(net: Net, chain: seq<Index>, s: seq<Candidate>)
    requires chain != [] && InIndex(net, chain) && Permuted(s, Candidates(Recent(chain)))
    ensures Distinct(s) && Indexed(net, s)
  {
    var v := Candidates(Recent(chain));
    forall k | 0 <= k < |s|
      ensures s[k].1 in net.index && net.index[s[k].1].hash == s[k].1 && net.index[s[k].1].time == s[k].0
    {
      assert s[k] in multiset(s) && s[k] in multiset(v);
      var j :| 0 <= j < |v| && v[j] == s[k];
      assert Recent(chain)[j] in chain;
    }
    HashesDiffer(net, chain);
    PermutedDistinct(s, v);
  }

  lemma HashesDiffer(net: Net, chain: seq<Index>)
    requires chain != [] && InIndex(net, chain)
    ensures Distinct(Candidates(Recent(chain)))
  {
    var v, k0 := Candidates(Recent(chain)), FirstCandidate(chain, SelectionStart(chain));
    forall j, k | 0 <= j < k < |v| ensures v[j].1 != v[k].1 {
      assert v[j].1 == chain[k0 + j].hash && v[k].1 == chain[k0 + k].hash;
    }
  }

  lemma {:induction false} HashesOfMembers(s: seq<Candidate>)
    ensures forall h :: h in HashesOf(s) <==> exists c :: c in multiset(s) && c.1 == h
  {
    if s != [] {
      var n := |s| - 1;
      HashesOfMembers(s[..n]);
      assert s == s[..n] + [s[n]];
      assert multiset(s) == multiset(s[..n]) + multiset{s[n]};
    }
  }

  lemma {:induction false} AsManyHashes(s: seq<Candidate>)
    ensures |HashesOf(s)| <= |s|
    ensures |HashesOf(s)| == |s| ==> Distinct(s)
  {
    if s != [] {
      var n := |s| - 1;
      AsManyHashes(s[..n]);
      HashesOfMembers(s[..n]);
      if |HashesOf(s)| == |s| {
        assert s[n].1 !in HashesOf(s[..n]);
        forall j, k | 0 <= j < k < |s| ensures s[j].1 != s[k].1 {
          if k == n {
            assert s[..n][j] in multiset(s[..n]);
          } else {
            assert s[..n][j].1 != s[..n][k].1;
          }
        }
      }
    }
  }

  lemma PermutedDistinct(s: seq<Candidate>, v: seq<Candidate>)
    requires Permuted(s, v) && Distinct(v)
    ensures Distinct(s)
  {
    HashesOfMembers(s);
    HashesOfMembers(v);
    assert HashesOf(s) == HashesOf(v);
    assert |s| == |multiset(s)| == |multiset(v)| == |v|;
    HashesOfSize(v);
    AsManyHashes(s);
  }

  // ---------------------------------------------------------------- whole chains

  /** The chain and the block's time leave one answer. */
  lemma NextIsUnique(net: Net, chain: seq<Index>, time: nat, m: nat, g: bool, m': nat, g': bool)
    requires IsNext(net, chain, time, m, g) && IsNext(net, chain, time, m', g')
    ensures m == m' && g == g'
  {
    if chain != [] && g {
      var s, picks :| Selected(net, chain, s, picks, m);
      var s', picks' :| Selected(net, chain, s', picks', m');
      SelectedUnique(net, chain, s, picks, m, s', picks', m');
    }
  }

  lemma SelectedUnique(net: Net, chain: seq<Index>, s: seq<Candidate>, picks: seq<nat>, m: nat,
                       s': seq<Candidate>, picks': seq<nat>, m': nat)
    requires chain != [] && 0 <= LastGenerated(chain) < |chain|
    requires Selected(net, chain, s, picks, m) && Selected(net, chain, s', picks', m')
    ensures s == s' && picks == picks' && m == m'
  {
    hide Run, Sorted, Entropy, NumberOf, LastGenerated, Candidates, FirstCandidate, Sections;
    SortedUnique(s, s');
    RunIsUnique(net, s, SelectionStart(chain), chain[LastGenerated(chain)].modifier, picks, picks');
  }

  /** With 64 candidates or more, the last pick is the best one left with time up
      to that of the block before, rounded down to a whole interval. */
  lemma LastStop(net: Net, chain: seq<Index>, s: seq<Candidate>, picks: seq<nat>, modifier: nat)
    requires chain != [] && 0 <= LastGenerated(chain) < |chain|
    requires Selected(net, chain, s, picks, modifier) && |s| >= 64
    ensures |picks| == 64 && forall r :: 0 <= r < 64 ==> picks[r] < |s|
    ensures Best(net, s, Chosen(s, picks[..63]), Interval(chain[|chain| - 1].time) * MODIFIER_INTERVAL,
                 chain[LastGenerated(chain)].modifier, picks[63])
  {
    hide Best, Sections, Chosen, Entropy, NumberOf, Sorted, LastGenerated;
    assert BestInRound(net, s, SelectionStart(chain), chain[LastGenerated(chain)].modifier, picks, 63);
  }

  /** Every block stores what ComputeNextStakeModifier gives for it. */
  ghost predicate Stored(net: Net, chain: seq<Index>) {
    forall k :: 0 <= k < |chain| ==> IsNext(net, chain[..k], chain[k].time, chain[k].modifier, chain[k].generated)
  }

  lemma {:induction false} LastOfPrefix(chain: seq<Index>, k: nat)
    requires k < |chain|
    ensures LastGenerated(chain[..k + 1]) == if chain[k].generated then k else LastGenerated(chain[..k])
  {
    assert chain[..k + 1][..k] == chain[..k];
  }

  /** Along the chain every block has the modifier of the nearest block, itself
      or before it, that generated one. */
  lemma {:induction false} ModifierOfNearest(net: Net, chain: seq<Index>, k: nat)
    requires Stored(net, chain) && k < |chain|
    ensures var g := LastGenerated(chain[..k + 1]);
      0 <= g <= k && chain[g].generated && chain[k].modifier == chain[g].modifier
  {
    hide Generates, Selected;
    LastOfPrefix(chain, k);
    assert IsNext(net, chain[..k], chain[k].time, chain[k].modifier, chain[k].generated);
    LastGeneratedIs(chain[..k + 1]);
    LastGeneratedIs(chain[..k]);
    if !chain[k].generated {
      var g := LastGenerated(chain[..k]);
      assert chain[..k][g] == chain[g];
    }
  }

  // ---------------------------------------------------------------- one modifier per interval

  ghost predicate OnePerInterval(chain: seq<Index>) {
    forall j, k :: 0 <= j < k < |chain| && chain[j].generated && chain[k].generated ==>
      Interval(chain[j].time) < Interval(chain[k].time)
  }

  /** Under the earlier rule, block k goes back to the interval of the last
      modifier or before, behind a block in a later interval. */
  predicate Backdated(net: Net, chain: seq<Index>, k: nat)
    requires k < |chain|
  {
    var g := LastGenerated(chain[..k]);
    && 0 <= g < k && !IsProtocolV04(net, chain[k].time)
    && Interval(chain[k].time) <= Interval(chain[g].time) < Interval(chain[k - 1].time)
  }

  /** A block that generates has a block in a later interval in front of it, and
      is itself in a later interval unless it is backdated. */
  lemma BackdatedExactly(net: Net, chain: seq<Index>, k: nat)
    requires Stored(net, chain) && 0 < k < |chain|
    ensures 0 <= LastGenerated(chain[..k]) < k
    ensures var last := chain[LastGenerated(chain[..k])];
      && (chain[k].generated ==> Interval(last.time) < Interval(chain[k - 1].time))
      && (Backdated(net, chain, k) <==> chain[k].generated && Interval(chain[k].time) <= Interval(last.time))
  {
    hide Selected;
    assert IsNext(net, chain[..k], chain[k].time, chain[k].modifier, chain[k].generated);
    LastGeneratedIs(chain[..k]);
    assert chain[..k][LastGenerated(chain[..k])] == chain[LastGenerated(chain[..k])];
  }

  lemma {:induction false} IncreaseBetween(net: Net, chain: seq<Index>, j: nat, k: nat)
    requires Stored(net, chain) && j < k < |chain| && chain[j].generated && chain[k].generated
    requires forall i :: j < i <= k ==> !Backdated(net, chain, i)
    ensures Interval(chain[j].time) < Interval(chain[k].time)
    decreases k
  {
    hide Stored;
    BackdatedExactly(net, chain, k);
    var g := LastGenerated(chain[..k]);
    LastGeneratedIs(chain[..k]);
    assert chain[..k][g] == chain[g] && chain[..k][j] == chain[j];
    if j < g {
      IncreaseBetween(net, chain, j, g);
    }
  }

  /** The intervals of generating blocks strictly increase, so that none yields
      two modifiers, exactly when no block is backdated. */
  lemma OneModifierExactly(net: Net, chain: seq<Index>)
    requires Stored(net, chain)
    ensures OnePerInterval(chain) <==> forall k :: 0 < k < |chain| ==> !Backdated(net, chain, k)
  {
    hide Stored, Backdated;
    forall k | 0 < k < |chain| && Backdated(net, chain, k) ensures !OnePerInterval(chain) {
      BackdatedExactly(net, chain, k);
      LastGeneratedIs(chain[..k]);
    }
    if forall k :: 0 < k < |chain| ==> !Backdated(net, chain, k) {
      forall j, k | 0 <= j < k < |chain| && chain[j].generated && chain[k].generated
        ensures Interval(chain[j].time) < Interval(chain[k].time)
      {
        IncreaseBetween(net, chain, j, k);
      }
    }
  }

  /** So they do where the later rule holds. */
  lemma IntervalsIncrease(net: Net, chain: seq<Index>, j: nat, k: nat)
    requires Stored(net, chain) && j < k < |chain| && chain[j].generated && chain[k].generated
    requires forall i :: j < i <= k && chain[i].generated ==> IsProtocolV04(net, chain[i].time)
    ensures Interval(chain[j].time) < Interval(chain[k].time)
  {
    hide Stored;
    forall i | j < i <= k ensures !Backdated(net, chain, i) {
      BackdatedExactly(net, chain, i);
    }
    IncreaseBetween(net, chain, j, k);
  }

  // ---------------------------------------------------------------- the times a node accepts

  const MEDIAN_TIME_SPAN: nat := 11
  const MINIMUM_TIME_FORK: nat := 250000
  const MINIMUM_BLOCK_SPACING: nat := 60

  /** The times of the last blocks of the chain, eleven at most. */
  function LastTimes(chain: seq<Index>): (ts: seq<int>)
    ensures |ts| == if |chain| < MEDIAN_TIME_SPAN then |chain| else MEDIAN_TIME_SPAN
  {
    var k := if |chain| < MEDIAN_TIME_SPAN then 0 else |chain| - MEDIAN_TIME_SPAN;
    seq(|chain| - k, j requires 0 <= j < |chain| - k => chain[k + j].time)
  }

  /** `ts` are those times in order; the median past is the one in the middle. */
  ghost predicate InOrder(chain: seq<Index>, ts: seq<int>) {
    multiset(ts) == multiset(LastTimes(chain)) && forall i, j :: 0 <= i < j < |ts| ==> ts[i] <= ts[j]
  }

  /** Every block is later than the median past of the blocks before it, and
      from the fork's height on by more than the spacing than the one before. */
  ghost predicate Timely(chain: seq<Index>) {
    && (forall k :: 0 < k < |chain| ==>
          exists ts :: InOrder(chain[..k], ts) && |ts| > 0 && ts[|ts| / 2] < chain[k].time)
    && forall k :: 0 < k < |chain| && k >= MINIMUM_TIME_FORK ==>
          chain[k].time > chain[k - 1].time + MINIMUM_BLOCK_SPACING
  }

  /** Blocks from the fork's height on are never backdated, under either rule. */
  lemma OneModifierOfTimely(net: Net, chain: seq<Index>)
    requires Stored(net, chain) && Timely(chain)
    ensures OnePerInterval(chain) <==>
      forall k :: 0 < k < |chain| && k < MINIMUM_TIME_FORK ==> !Backdated(net, chain, k)
  {
    hide Stored, OnePerInterval, Timely, Backdated;
    OneModifierExactly(net, chain);
    forall k | MINIMUM_TIME_FORK <= k < |chain| ensures !Backdated(net, chain, k) {
      NotFromForkOn(net, chain, k);
    }
  }

  lemma NotFromForkOn(net: Net, chain: seq<Index>, k: nat)
    requires Timely(chain) && MINIMUM_TIME_FORK <= k < |chain|
    ensures !Backdated(net, chain, k)
  {
    hide LastGenerated, InOrder;
    assert chain[k].time > chain[k - 1].time + MINIMUM_BLOCK_SPACING;
    assert Interval(chain[k].time) >= Interval(chain[k - 1].time);
  }

  /** Below it timely blocks can be: one in the next interval lets another,
      earlier but past the median, generate in the first interval again. */
  method TwoInOneInterval(rankHash: (Hash, nat) -> Hash) returns (net: Net, chain: seq<Index>)
    ensures |chain| == 4 && Stored(net, chain) && Timely(chain) && InIndex(net, chain[..3])
    ensures chain[0].generated && chain[3].generated && Backdated(net, chain, 3)
    ensures Interval(chain[0].time) == Interval(chain[3].time)
  {
    hide Selected, Generates, LastGenerated, Stored, Timely, Backdated;
    var b0 := Index(1, 0, 0, false, 0, false, true, 0);
    var b1 := Index(2, 10700, 1, false, 0, false, false, 0);
    var b2 := Index(3, 10800, 2, false, 0, false, false, 0);
    net := Net(map[1 := b0, 2 := b1, 3 := b2], rankHash, false);
    GenesisOnly([b0, b1, b2]);
    var ok, m, g := ComputeNextStakeModifier(net, [b0, b1, b2], 10750);
    chain := [b0, b1, b2, Index(4, 10750, 3, false, 0, false, g, m)];
    assert chain[..3] == [b0, b1, b2];
    FourStored(net, chain);
    FourTimely(chain);
  }

  predicate GenesisFirst(chain: seq<Index>) {
    && chain != [] && chain[0].generated && chain[0].modifier == 0
    && forall k :: 0 < k < |chain| ==> !chain[k].generated && chain[k].modifier == 0
  }

  lemma {:induction false} GenesisOnly(chain: seq<Index>)
    requires GenesisFirst(chain)
    ensures LastGenerated(chain) == 0
  {
    if |chain| > 1 {
      GenesisOnly(chain[..|chain| - 1]);
    }
  }

  predicate FourBlocks(chain: seq<Index>) {
    && |chain| == 4 && chain[0].time == 0 && chain[1].time == 10700 && chain[2].time == 10800
    && chain[3].time == 10750
  }

  lemma FourStored(net: Net, chain: seq<Index>)
    requires FourBlocks(chain) && GenesisFirst(chain[..3]) && !net.testNet
    requires IsNext(net, chain[..3], chain[3].time, chain[3].modifier, chain[3].generated)
    ensures Stored(net, chain) && chain[3].generated && Backdated(net, chain, 3)
  {
    hide Selected, LastGenerated;
    forall k | 0 < k < 4 ensures LastGenerated(chain[..k]) == 0 {
      assert chain[..k] == chain[..3][..k];
      GenesisOnly(chain[..k]);
    }
    forall k | 0 <= k < 4
      ensures IsNext(net, chain[..k], chain[k].time, chain[k].modifier, chain[k].generated)
    {
      assert k == 0 || k == 1 || k == 2 || k == 3;
    }
  }

  lemma FourTimely(chain: seq<Index>)
    requires FourBlocks(chain)
    ensures Timely(chain)
  {
    hide InOrder;
    forall k | 0 < k < 4
      ensures exists ts :: InOrder(chain[..k], ts) && |ts| > 0 && ts[|ts| / 2] < chain[k].time
    {
      var ts := [0, 10700, 10800][..k];
      FirstInOrder(chain, k);
      assert ts[k / 2] < chain[k].time;
    }
  }

  lemma FirstInOrder(chain: seq<Index>, k: nat)
    requires FourBlocks(chain) && k < 4
    ensures InOrder(chain[..k], [0, 10700, 10800][..k])
  {
    assert LastTimes(chain[..k]) == [0, 10700, 10800][..k];
  }

  // ---------------------------------------------------------------- the kernel's modifier

  /** Block p generated the first modifier a selection interval or more after
      the block at the front of the line. */
  ghost predicate FirstLater(line: seq<Index>, p: nat) {
    && 0 < p < |line| && Later(line, p)
    && forall q :: 0 < q < p ==> !Later(line, q)
  }

  predicate Later(line: seq<Index>, q: nat)
    requires 0 < q < |line|
  {
    line[q].generated && line[q].time >= line[0].time + Sections(64)
  }

  /** `line` is the block a coin comes from and the blocks after it on the best chain. */
  method GetKernelStakeModifier(line: seq<Index>)
      returns (ok: bool, nStakeModifier: nat, nHeight: int, nTime: nat, ghost found: nat)
    requires line != []
    ensures ok <==> exists p :: 0 < p < |line| && Later(line, p)
    ensures ok ==> FirstLater(line, found)
    ensures ok ==> line[found].generated && line[found].time - line[0].time >= Sections(64)
    ensures found <= |line| && forall q :: 0 < q < found && line[q].generated ==>
      line[q].time - line[0].time < Sections(64)
    ensures !ok ==> found == |line|
    ensures ok ==> nStakeModifier == line[found].modifier && nHeight == line[found].height && nTime == line[found].time
  {
    hide Sections, Section;
    nStakeModifier, nHeight, nTime, found := 0, line[0].height, line[0].time, 0;
    var nInterval := GetStakeModifierSelectionInterval();
    IntervalIsPositive();
    var p := 0;
    while nTime < line[0].time + nInterval
      invariant 0 <= p < |line|
      invariant nTime < line[0].time + nInterval ==> forall q :: 0 < q <= p ==> !Later(line, q)
      invariant nTime >= line[0].time + nInterval ==> FirstLater(line, p)
      invariant nTime >= line[0].time + nInterval ==> nHeight == line[p].height && nTime == line[p].time
      decreases |line| - p
    {
      if p + 1 == |line| {
        NoneLater(line, |line|);
        return false, 0, nHeight, nTime, |line|;
      }
      p := p + 1;
      if line[p].generated {
        nHeight := line[p].height;
        nTime := line[p].time;
      }
    }
    NoneLater(line, p);
    return true, line[p].modifier, nHeight, nTime, p;
  }

  lemma NoneLater(line: seq<Index>, n: nat)
    requires n <= |line| && forall q :: 0 < q < n ==> !Later(line, q)
    ensures forall q :: 0 < q < n && line[q].generated ==> line[q].time - line[0].time < Sections(64)
  {
    hide Sections;
    forall q | 0 < q < n && line[q].generated ensures line[q].time - line[0].time < Sections(64) {
      assert !Later(line, q);
    }
  }

  lemma IntervalIsPositive()
    ensures Sections(64) > 0
  {
    assert Sections(1) == Sections(0) + Section(0);
    SectionsGrow(1, 64);
  }

  lemma {:induction false} SectionsGrow(m: nat, n: nat)
    requires m <= n <= 64
    ensures Sections(m) <= Sections(n)
  {
    if m < n {
      SectionsGrow(m, n - 1);
    }
  }

  /** More blocks at the end do not change a modifier once found. */
  lemma KernelModifierIsStable(line: seq<Index>, more: seq<Index>, p: nat, q: nat)
    requires FirstLater(line, p) && FirstLater(line + more, q)
    ensures p == q && (line + more)[q] == line[p]
  {
    assert Later(line + more, p);
    assert q < p ==> !Later(line, q);
  }
}
