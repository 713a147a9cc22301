/** Selecting blocks for a new stake modifier (src/kernel.cpp): up to 64 rounds,
    each taking one block out of a list sorted by time. */
module KernelSelection {
  import opened Arith
  import opened Binary

  type Hash = nat

  /** What is recorded of a block in the index. */
  datatype Index = Index(hash: Hash, time: nat, height: int, proofOfStake: bool, proofHash: Hash,
                         entropy: bool, generated: bool, modifier: nat)

  /** The index of blocks by hash, the hash that ranks candidates, and whether
      this is the test network. */
  datatype Net = Net(index: map<Hash, Index>, rankHash: (Hash, nat) -> Hash, testNet: bool)

  /** A candidate: time and hash of a block. */
  type Candidate = (int, Hash)

  ghost predicate Indexed(net: Net, s: seq<Candidate>) {
    forall k :: 0 <= k < |s| ==>
      s[k].1 in net.index && net.index[s[k].1].hash == s[k].1 && net.index[s[k].1].time == s[k].0
  }

  predicate Before(a: Candidate, b: Candidate) { a.0 < b.0 || (a.0 == b.0 && a.1 <= b.1) }

  ghost predicate Sorted(s: seq<Candidate>) {
    forall j, k :: 0 <= j < k < |s| ==> Before(s[j], s[k])
  }

  ghost predicate Distinct(s: seq<Candidate>) {
    forall j, k :: 0 <= j < k < |s| ==> s[j].1 != s[k].1
  }

  // ---------------------------------------------------------------- one round

  /** The hash that ranks a candidate; proof-of-stake blocks rank lower by 32 bits. */
  function Rank(net: Net, i: Index, prevModifier: nat): Hash {
    var h := net.rankHash(if i.proofOfStake then i.proofHash else i.hash, prevModifier);
    if i.proofOfStake then h / 0x1_0000_0000 else h
  }

  function RankAt(net: Net, s: seq<Candidate>, prevModifier: nat, k: nat): Hash
    requires k < |s|
  {
    if s[k].1 in net.index then Rank(net, net.index[s[k].1], prevModifier) else 0
  }

  /** Candidate k is the one to select: of the unselected ones with time up to
      the stop the first with the least rank, or else the first unselected one. */
  ghost predicate Best(net: Net, s: seq<Candidate>, selected: set<Hash>, stop: int, prevModifier: nat, k: nat) {
    && k < |s| && s[k].1 !in selected
    && (if s[k].0 <= stop then
          forall j :: 0 <= j < |s| && s[j].1 !in selected && s[j].0 <= stop ==>
            RankAt(net, s, prevModifier, k) < RankAt(net, s, prevModifier, j)
            || (RankAt(net, s, prevModifier, k) == RankAt(net, s, prevModifier, j) && k <= j)
        else forall j :: 0 <= j < |s| && s[j].1 !in selected ==> s[j].0 > stop && k <= j)
  }

  lemma BestIsUnique(net: Net, s: seq<Candidate>, selected: set<Hash>, stop: int, prevModifier: nat, k: nat, l: nat)
    requires Best(net, s, selected, stop, prevModifier, k) && Best(net, s, selected, stop, prevModifier, l)
    ensures k == l
  {
  }

  const TWO_32: nat := 0x1_0000_0000
  const TWO_224: nat := TWO_32 * TWO_32 * TWO_32 * TWO_32 * TWO_32 * TWO_32 * TWO_32

  /** What the pick says of any other candidate up to the stop: two proof-of-work
      blocks compare by the hash of their own hash and the modifier before, two
      proof-of-stake blocks by that of their proof's hash, 32 bits less; and where
      a proof-of-work block was preferred, it was lower even so. */
  lemma PickCompares(net: Net, s: seq<Candidate>, selected: set<Hash>, stop: int, prevModifier: nat, k: nat, j: nat)
    requires Indexed(net, s) && Best(net, s, selected, stop, prevModifier, k)
    requires j < |s| && s[j].1 !in selected && s[j].0 <= stop
    ensures s[k].0 <= stop
    ensures var a, b := net.index[s[k].1], net.index[s[j].1];
      var workA, workB := net.rankHash(a.hash, prevModifier), net.rankHash(b.hash, prevModifier);
      var stakeA, stakeB := net.rankHash(a.proofHash, prevModifier), net.rankHash(b.proofHash, prevModifier);
      && (!a.proofOfStake && !b.proofOfStake ==> workA < workB || (workA == workB && k <= j))
      && (a.proofOfStake && b.proofOfStake ==>
            stakeA / TWO_32 < stakeB / TWO_32 || (stakeA / TWO_32 == stakeB / TWO_32 && k <= j))
      && (!a.proofOfStake && b.proofOfStake ==> workA <= stakeB / TWO_32)
      && (a.proofOfStake && !b.proofOfStake ==> stakeA / TWO_32 <= workB)
  {
  }

  /** With hashes of 256 bits, a proof-of-work block whose selection hash is not
      below 2^224 is never picked while a proof-of-stake block is there to pick. */
  lemma StakeIsFavored(net: Net, s: seq<Candidate>, selected: set<Hash>, stop: int, prevModifier: nat, k: nat, j: nat)
    requires Indexed(net, s) && Best(net, s, selected, stop, prevModifier, k)
    requires j < |s| && s[j].1 !in selected && s[j].0 <= stop && net.index[s[j].1].proofOfStake
    requires net.rankHash(net.index[s[j].1].proofHash, prevModifier) < TWO_224 * TWO_32
    ensures net.rankHash(net.index[s[k].1].hash, prevModifier) >= TWO_224 ==> net.index[s[k].1].proofOfStake
  {
    hide Best;
    PickCompares(net, s, selected, stop, prevModifier, k, j);
  }

  method SelectBlockFromCandidates(net: Net, s: seq<Candidate>, selected: set<Hash>, stop: int, prevModifier: nat)
      returns (pick: nat, fSelected: bool)
    requires Sorted(s)
    ensures fSelected ==> pick < |s| && s[pick].1 in net.index
    ensures Indexed(net, s) && fSelected ==> Best(net, s, selected, stop, prevModifier, pick)
    ensures Indexed(net, s) ==> (fSelected <==> exists j :: 0 <= j < |s| && s[j].1 !in selected)
  {
    fSelected, pick := false, 0;
    var hashBest := 0;
    for i := 0 to |s|
      invariant Indexed(net, s) && !fSelected ==> forall j :: 0 <= j < i ==> s[j].1 in selected
      invariant fSelected ==> pick < i && s[pick].1 in net.index
      invariant Indexed(net, s) && fSelected ==> s[pick].1 !in selected
      invariant Indexed(net, s) && fSelected ==> hashBest == RankAt(net, s, prevModifier, pick)
      invariant Indexed(net, s) && fSelected ==> LeadsUpTo(net, s, selected, stop, prevModifier, pick, i)
    {
      var item := s[i];
      if item.1 !in net.index {
        return 0, false;
      }
      var pindex := net.index[item.1];
      if fSelected && pindex.time > stop {
        if Indexed(net, s) {
          RestIsLater(net, s, selected, stop, prevModifier, pick, i);
        }
        return;
      }
      if pindex.hash in selected {
        continue;
      }
      var hashSelection := Rank(net, pindex, prevModifier);
      if fSelected && hashSelection < hashBest {
        hashBest := hashSelection;
        pick := i;
      } else if !fSelected {
        fSelected := true;
        hashBest := hashSelection;
        pick := i;
      }
    }
  }

  /** `pick` is the best of the first i candidates; a late one only as the last of them. */
  ghost predicate LeadsUpTo(net: Net, s: seq<Candidate>, selected: set<Hash>, stop: int, prevModifier: nat,
                            pick: nat, i: nat)
  {
    && pick < i <= |s| && s[pick].1 !in selected
    && (if s[pick].0 <= stop then
          forall j :: 0 <= j < i && s[j].1 !in selected ==>
            && s[j].0 <= stop
            && (RankAt(net, s, prevModifier, pick) < RankAt(net, s, prevModifier, j)
                || (RankAt(net, s, prevModifier, pick) == RankAt(net, s, prevModifier, j) && pick <= j))
        else i == pick + 1 && forall j :: 0 <= j < pick ==> s[j].1 in selected)
  }

  lemma RestIsLater(net: Net, s: seq<Candidate>, selected: set<Hash>, stop: int, prevModifier: nat, pick: nat, i: nat)
    requires Sorted(s) && LeadsUpTo(net, s, selected, stop, prevModifier, pick, i)
    requires i < |s| ==> s[i].0 > stop
    ensures Best(net, s, selected, stop, prevModifier, pick)
  {
    forall j | i <= j < |s| ensures s[j].0 > stop {
      assert i < j ==> Before(s[i], s[j]);
    }
    if s[pick].0 > stop {
      forall j | 0 <= j < |s| && s[j].1 !in selected ensures s[j].0 > stop && pick <= j {
      }
    }
  }

  // ---------------------------------------------------------------- all rounds

  const MODIFIER_INTERVAL: nat := 3 * 60 * 60
  const MODIFIER_INTERVAL_RATIO: nat := 3

  function Section(n: nat): nat
    requires n < 64
  {
    MODIFIER_INTERVAL * 63 / (63 + (63 - n) * (MODIFIER_INTERVAL_RATIO - 1))
  }

  /** The first n sections together. */
  function Sections(n: nat): nat
    requires n <= 64
  {
    if n == 0 then 0 else Sections(n - 1) + Section(n - 1)
  }

  /** The last section is the whole interval and the ratio times the first; each
      is at least as long as the one before. */
  lemma SectionLengths(n: nat)
    requires n < 63
    ensures Section(n) <= Section(n + 1)
    ensures Section(63) == 10800 == 3 * Section(0) && Sections(1) == Section(0)
  {
    LargerShare(680400, 63 + (63 - n) * 2, 63 + (62 - n) * 2);
  }

  method GetStakeModifierSelectionInterval() returns (nSelectionInterval: nat)
    ensures nSelectionInterval == Sections(64)
  {
    nSelectionInterval := 0;
    for nSection := 0 to 64
      invariant nSelectionInterval == Sections(nSection)
    {
      nSelectionInterval := nSelectionInterval + Section(nSection);
    }
  }

  /** The hashes of the candidates picked. */
  function Chosen(s: seq<Candidate>, picks: seq<nat>): set<Hash>
    requires forall r :: 0 <= r < |picks| ==> picks[r] < |s|
  {
    if picks == [] then {} else Chosen(s, picks[..|picks| - 1]) + {s[picks[|picks| - 1]].1}
  }

  /** Round r has the sections up to r to choose from, and what was not picked before. */
  ghost predicate Run(net: Net, s: seq<Candidate>, start: int, prevModifier: nat, picks: seq<nat>) {
    && |picks| <= 64 && (forall r :: 0 <= r < |picks| ==> picks[r] < |s|)
    && forall r :: 0 <= r < |picks| ==> BestInRound(net, s, start, prevModifier, picks, r)
  }

  ghost predicate BestInRound(net: Net, s: seq<Candidate>, start: int, prevModifier: nat, picks: seq<nat>, r: nat)
    requires r < |picks| && r < 64 && forall r :: 0 <= r < |picks| ==> picks[r] < |s|
  {
    Best(net, s, Chosen(s, picks[..r]), start + Sections(r + 1), prevModifier, picks[r])
  }

  /** A round depends on the picks up to it. */
  lemma SameRound(net: Net, s: seq<Candidate>, start: int, prevModifier: nat, picks: seq<nat>, n: nat, r: nat)
    requires r < n <= |picks| && r < 64 && forall r :: 0 <= r < |picks| ==> picks[r] < |s|
    ensures BestInRound(net, s, start, prevModifier, picks[..n], r) <==>
      BestInRound(net, s, start, prevModifier, picks, r)
  {
    assert picks[..n][..r] == picks[..r];
  }

  /** The entropy bits of the picks. */
  function Entropy(net: Net, s: seq<Candidate>, picks: seq<nat>): seq<bool>
    requires Indexed(net, s) && forall r :: 0 <= r < |picks| ==> picks[r] < |s|
  {
    seq(|picks|, r requires 0 <= r < |picks| => net.index[s[picks[r]].1].entropy)
  }

  lemma {:induction false} ChosenHas(s: seq<Candidate>, picks: seq<nat>, r: nat)
    requires (forall r :: 0 <= r < |picks| ==> picks[r] < |s|) && r < |picks|
    ensures s[picks[r]].1 in Chosen(s, picks)
  {
    var n := |picks| - 1;
    if r < n {
      ChosenHas(s, picks[..n], r);
    }
  }

  /** The picks of a run are different blocks. */
  lemma PicksDiffer(net: Net, s: seq<Candidate>, start: int, prevModifier: nat, picks: seq<nat>, q: nat, r: nat)
    requires Run(net, s, start, prevModifier, picks) && q < r < |picks|
    ensures s[picks[q]].1 != s[picks[r]].1
  {
    ChosenHas(s, picks[..r], q);
    assert BestInRound(net, s, start, prevModifier, picks, r);
  }

  /** There is only one run of a given length. */
  lemma {:induction false} RunIsUnique(net: Net, s: seq<Candidate>, start: int, prevModifier: nat,
                                       ps: seq<nat>, qs: seq<nat>)
    requires Run(net, s, start, prevModifier, ps) && Run(net, s, start, prevModifier, qs) && |ps| == |qs|
    ensures ps == qs
  {
    hide Best, Sections, Chosen;
    if ps == [] {
      assert qs == [];
    } else {
      var n := |ps| - 1;
      RunPrefix(net, s, start, prevModifier, ps, n);
      RunPrefix(net, s, start, prevModifier, qs, n);
      RunIsUnique(net, s, start, prevModifier, ps[..n], qs[..n]);
      assert BestInRound(net, s, start, prevModifier, ps, n) && BestInRound(net, s, start, prevModifier, qs, n);
      BestIsUnique(net, s, Chosen(s, ps[..n]), start + Sections(n + 1), prevModifier, ps[n], qs[n]);
      assert ps == ps[..n] + [ps[n]] && qs == qs[..n] + [qs[n]];
    }
  }

  lemma RunPrefix(net: Net, s: seq<Candidate>, start: int, prevModifier: nat, picks: seq<nat>, n: nat)
    requires Run(net, s, start, prevModifier, picks) && n <= |picks|
    ensures Run(net, s, start, prevModifier, picks[..n])
  {
    forall r | 0 <= r < n ensures BestInRound(net, s, start, prevModifier, picks[..n], r) {
      SameRound(net, s, start, prevModifier, picks, n, r);
    }
  }

  lemma {:induction false} ChosenSize(s: seq<Candidate>, picks: seq<nat>)
    requires forall r :: 0 <= r < |picks| ==> picks[r] < |s|
    ensures |Chosen(s, picks)| <= |picks|
  {
    if picks != [] {
      ChosenSize(s, picks[..|picks| - 1]);
    }
  }

  function HashesOf(s: seq<Candidate>): set<Hash> {
    if s == [] then {} else HashesOf(s[..|s| - 1]) + {s[|s| - 1].1}
  }

  lemma {:induction false} HashesAre(s: seq<Candidate>)
    ensures forall h :: h in HashesOf(s) <==> exists k :: 0 <= k < |s| && s[k].1 == h
  {
    if s != [] {
      var n := |s| - 1;
      HashesAre(s[..n]);
      forall h ensures h in HashesOf(s) <==> exists k :: 0 <= k < |s| && s[k].1 == h {
        OneHashMore(s, s[..n], h);
      }
    }
  }

  lemma OneHashMore(s: seq<Candidate>, front: seq<Candidate>, h: Hash)
    requires s != [] && front == s[..|s| - 1]
    ensures (exists k :: 0 <= k < |s| && s[k].1 == h) <==>
      h == s[|s| - 1].1 || exists k :: 0 <= k < |front| && front[k].1 == h
  {
    if k :| 0 <= k < |s| && s[k].1 == h && k < |s| - 1 {
      assert front[k].1 == h;
    }
  }

  lemma {:induction false} HashesOfSize(s: seq<Candidate>)
    requires Distinct(s)
    ensures |HashesOf(s)| == |s|
  {
    if s != [] {
      var n := |s| - 1;
      HashesOfSize(s[..n]);
      HashesAre(s[..n]);
    }
  }

  /** While fewer were picked than there are, one is left. */
  lemma OneIsLeft(s: seq<Candidate>, picks: seq<nat>)
    requires Distinct(s) && (forall r :: 0 <= r < |picks| ==> picks[r] < |s|) && |picks| < |s|
    ensures exists j :: 0 <= j < |s| && s[j].1 !in Chosen(s, picks)
  {
    ChosenSize(s, picks);
    HashesOfSize(s);
    HashesAre(s);
    if forall j :: 0 <= j < |s| ==> s[j].1 in Chosen(s, picks) {
      Within(HashesOf(s), Chosen(s, picks));
    }
  }

  lemma Within(a: set<Hash>, b: set<Hash>)
    requires a <= b
    ensures |a| <= |b|
  {
    assert b == a + (b - a);
  }

  function Min(a: int, b: int): int { if a < b then a else b }

  /** The rounds: all of them succeed, and bit r of the modifier is the entropy
      bit of the r-th pick. */
  method SelectRounds(net: Net, s: seq<Candidate>, start: int, prevModifier: nat)
      returns (ok: bool, modifier: nat, ghost picks: seq<nat>)
    requires Sorted(s) && Distinct(s) && Indexed(net, s)
    ensures ok && Run(net, s, start, prevModifier, picks) && |picks| == Min(64, |s|)
    ensures modifier == NumberOf(Entropy(net, s, picks))
  {
    hide Best, BestInRound, Chosen, Entropy, NumberOf, Section;
    NoRounds(net, s, start, prevModifier);
    ok, modifier, picks := true, 0, [];
    var stop := start;
    var mapSelectedBlocks: set<Hash> := {};
    var nRound := 0;
    while nRound < Min(64, |s|)
      invariant 0 <= nRound <= Min(64, |s|) && |picks| == nRound
      invariant stop == start + Sections(nRound)
      invariant Run(net, s, start, prevModifier, picks) && mapSelectedBlocks == Chosen(s, picks)
      invariant modifier == NumberOf(Entropy(net, s, picks))
      decreases Min(64, |s|) - nRound
    {
      stop := stop + Section(nRound);
      var pick, found := SelectBlockFromCandidates(net, s, mapSelectedBlocks, stop, prevModifier);
      OneIsLeft(s, picks);
      if !found {
        assert false;
      }
      var pindex := net.index[s[pick].1];
      RunGrows(net, s, start, prevModifier, picks, pick);
      if pindex.entropy {
        modifier := modifier + Pow2(nRound);
      }
      mapSelectedBlocks := mapSelectedBlocks + {pindex.hash};
      picks := picks + [pick];
      nRound := nRound + 1;
    }
  }

  lemma NoRounds(net: Net, s: seq<Candidate>, start: int, prevModifier: nat)
    requires Indexed(net, s)
    ensures Run(net, s, start, prevModifier, []) && Chosen(s, []) == {} && NumberOf(Entropy(net, s, [])) == 0
  {
  }

  lemma RunGrows(net: Net, s: seq<Candidate>, start: int, prevModifier: nat, picks: seq<nat>, pick: nat)
    requires Indexed(net, s) && Run(net, s, start, prevModifier, picks) && |picks| < 64
    requires Best(net, s, Chosen(s, picks), start + Sections(|picks| + 1), prevModifier, pick)
    ensures Run(net, s, start, prevModifier, picks + [pick])
    ensures Chosen(s, picks + [pick]) == Chosen(s, picks) + {s[pick].1}
    ensures NumberOf(Entropy(net, s, picks + [pick])) ==
      NumberOf(Entropy(net, s, picks)) + (if net.index[s[pick].1].entropy then Pow2(|picks|) else 0)
  {
    assert pick < |s|;
    hide NumberOf, Entropy, Best, Sections, Pow2;
    RunExtends(net, s, start, prevModifier, picks, pick);
    EntropyGrows(net, s, picks, pick);
    assert (picks + [pick])[..|picks|] == picks;
  }

  lemma EntropyGrows(net: Net, s: seq<Candidate>, picks: seq<nat>, pick: nat)
    requires Indexed(net, s) && pick < |s| && forall r :: 0 <= r < |picks| ==> picks[r] < |s|
    ensures NumberOf(Entropy(net, s, picks + [pick])) ==
      NumberOf(Entropy(net, s, picks)) + (if net.index[s[pick].1].entropy then Pow2(|picks|) else 0)
  {
    hide NumberOf, Pow2;
    EntropySnoc(net, s, picks, pick);
    NumberOfSnoc(Entropy(net, s, picks), net.index[s[pick].1].entropy);
  }

  lemma EntropySnoc(net: Net, s: seq<Candidate>, picks: seq<nat>, pick: nat)
    requires Indexed(net, s) && pick < |s| && forall r :: 0 <= r < |picks| ==> picks[r] < |s|
    ensures |Entropy(net, s, picks)| == |picks|
    ensures Entropy(net, s, picks + [pick]) == Entropy(net, s, picks) + [net.index[s[pick].1].entropy]
  {
  }

  lemma RunExtends(net: Net, s: seq<Candidate>, start: int, prevModifier: nat, picks: seq<nat>, pick: nat)
    requires Run(net, s, start, prevModifier, picks) && |picks| < 64 && pick < |s|
    requires Best(net, s, Chosen(s, picks), start + Sections(|picks| + 1), prevModifier, pick)
    ensures Run(net, s, start, prevModifier, picks + [pick])
  {
    hide BestInRound;
    var more := picks + [pick];
    assert more[..|picks|] == picks;
    forall r | 0 <= r < |more| ensures BestInRound(net, s, start, prevModifier, more, r) {
      if r < |picks| {
        SameRound(net, s, start, prevModifier, more, |picks|, r);
      } else {
        LastRound(net, s, start, prevModifier, picks, pick);
      }
    }
  }

  lemma LastRound(net: Net, s: seq<Candidate>, start: int, prevModifier: nat, picks: seq<nat>, pick: nat)
    requires |picks| < 64 && pick < |s| && forall r :: 0 <= r < |picks| ==> picks[r] < |s|
    requires Best(net, s, Chosen(s, picks), start + Sections(|picks| + 1), prevModifier, pick)
    ensures BestInRound(net, s, start, prevModifier, picks + [pick], |picks|)
  {
    hide Best, Sections, Chosen;
    assert (picks + [pick])[..|picks|] == picks;
  }

  /** The bits of the modifier can be read off again. */
  lemma ModifierBits(net: Net, s: seq<Candidate>, picks: seq<nat>)
    requires Indexed(net, s) && forall r :: 0 <= r < |picks| ==> picks[r] < |s|
    ensures BitsOf(NumberOf(Entropy(net, s, picks)), |picks|) == Entropy(net, s, picks)
    ensures NumberOf(Entropy(net, s, picks)) < Pow2(|picks|)
  {
    BitsRoundTrip(Entropy(net, s, picks));
  }
}
