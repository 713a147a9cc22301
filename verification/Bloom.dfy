/** The Bloom filter of src/bloom.cpp: what is inserted is found from then on,
    and an output that matched is recognized when it is spent. */
module Bloom {
  import opened ByteBits

  type Key = seq<Byte>
  datatype OutPoint = OutPoint(hash: nat, n: nat)

  /** An output and an input with the data their scripts push, up to where a
      script cannot be read on. */
  datatype TxOut = TxOut(pushes: seq<Key>, keyScript: bool)
  datatype TxIn = TxIn(prevout: OutPoint, pushes: seq<Key>)
  datatype Tx = Tx(vin: seq<TxIn>, vout: seq<TxOut>)

  /** The hash, and the bytes of outpoints and transaction hashes. */
  datatype Env = Env(murmur: (nat, Key) -> nat, outKey: OutPoint -> Key, hashKey: nat -> Key)

  datatype Update = UpdateNone | UpdateAll | UpdateP2PubKeyOnly | Reserved

  datatype Filter = Filter(vData: seq<Byte>, isFull: bool, isEmpty: bool, nHashFuncs: nat, nTweak: nat, update: Update)

  // ---------------------------------------------------------------- one key

  function Index(env: Env, f: Filter, i: nat, key: Key): (k: nat)
    requires |f.vData| > 0
    ensures k < 8 * |f.vData|
  {
    env.murmur((i * 0xFBA4C795 + f.nTweak) % 0x1_0000_0000, key) % (|f.vData| * 8)
  }

  /** The bits of the first n hashes set. */
  function Marked(env: Env, f: Filter, key: Key, n: nat): (r: Filter)
    requires |f.vData| > 0
    ensures |r.vData| == |f.vData| && r == f.(vData := r.vData)
  {
    if n == 0 then f
    else
      var g := Marked(env, f, key, n - 1);
      g.(vData := WithBit(g.vData, Index(env, f, n - 1, key)))
  }

  ghost predicate HasBits(env: Env, f: Filter, key: Key)
    requires |f.vData| > 0
  {
    forall i :: 0 <= i < f.nHashFuncs ==> BitAt(f.vData, Index(env, f, i, key))
  }

  function Inserted(env: Env, f: Filter, key: Key): Filter
    requires |f.vData| > 0
  {
    if f.isFull then f else Marked(env, f, key, f.nHashFuncs).(isEmpty := false)
  }

  ghost predicate Contains(env: Env, f: Filter, key: Key)
    requires |f.vData| > 0
  {
    f.isFull || (!f.isEmpty && HasBits(env, f, key))
  }

  /** The flags, where set, tell the truth. */
  predicate Truthful(f: Filter) {
    (f.isFull ==> AllOnes(f.vData)) && (f.isEmpty ==> AllZeros(f.vData))
  }

  /** Bits are only added, and the rest but for the flags is the same. */
  ghost predicate Below(f: Filter, g: Filter) {
    && |g.vData| == |f.vData| && g == f.(vData := g.vData, isFull := g.isFull, isEmpty := g.isEmpty)
    && forall k :: 0 <= k < 8 * |f.vData| && BitAt(f.vData, k) ==> BitAt(g.vData, k)
  }

  lemma {:induction false} MarkedBits(env: Env, f: Filter, key: Key, n: nat)
    requires |f.vData| > 0
    ensures Below(f, Marked(env, f, key, n))
    ensures forall i :: 0 <= i < n ==> BitAt(Marked(env, f, key, n).vData, Index(env, f, i, key))
  {
    hide BitAt, WithBit, Index;
    if n > 0 {
      MarkedBits(env, f, key, n - 1);
      var g, m := Marked(env, f, key, n - 1), Index(env, f, n - 1, key);
      var h := Marked(env, f, key, n);
      forall k | 0 <= k < 8 * |f.vData| ensures BitAt(h.vData, k) <==> BitAt(g.vData, k) || k == m {
        WithBitAt(g.vData, m, k);
      }
    }
  }

  /** No bit but those of the key is set. */
  lemma {:induction false} MarkedOnly(env: Env, f: Filter, key: Key, n: nat, k: nat)
    requires |f.vData| > 0 && k < 8 * |f.vData| && BitAt(Marked(env, f, key, n).vData, k)
    ensures BitAt(f.vData, k) || exists i :: 0 <= i < n && Index(env, f, i, key) == k
  {
    hide BitAt, WithBit, Index;
    if n > 0 {
      var g, m := Marked(env, f, key, n - 1), Index(env, f, n - 1, key);
      WithBitAt(g.vData, m, k);
      if k != m {
        MarkedOnly(env, f, key, n - 1, k);
      }
    }
  }

  /** The i-th bit of a key: hashed with a seed 0xFBA4C795 more each time, it is
      set once the key is inserted, and set if the key is found. */
  lemma KeyBit(env: Env, f: Filter, key: Key, i: nat)
    requires |f.vData| > 0 && !f.isFull && i < f.nHashFuncs
    ensures var k := env.murmur((i * 0xFBA4C795 + f.nTweak) % 0x1_0000_0000, key) % (8 * |f.vData|);
      && k < 8 * |f.vData| == 8 * |Inserted(env, f, key).vData|
      && BitAt(Inserted(env, f, key).vData, k) && (Contains(env, f, key) ==> BitAt(f.vData, k))
  {
    hide BitAt, WithBit, Marked;
    MarkedBits(env, f, key, f.nHashFuncs);
    assert BitAt(Marked(env, f, key, f.nHashFuncs).vData, Index(env, f, i, key));
    assert Contains(env, f, key) ==> BitAt(f.vData, Index(env, f, i, key));
  }

  /** Inserting it sets no other bit, */
  lemma OtherBit(env: Env, f: Filter, key: Key, k: nat) returns (i: nat)
    requires |f.vData| > 0 && |Inserted(env, f, key).vData| == |f.vData| && k < 8 * |f.vData|
    requires !BitAt(f.vData, k) && BitAt(Inserted(env, f, key).vData, k)
    ensures i < f.nHashFuncs
    ensures env.murmur((i * 0xFBA4C795 + f.nTweak) % 0x1_0000_0000, key) % (8 * |f.vData|) == k
  {
    hide BitAt, WithBit, Marked;
    MarkedOnly(env, f, key, f.nHashFuncs, k);
    i :| 0 <= i < f.nHashFuncs && Index(env, f, i, key) == k;
  }

  /** and of a key that is not found one of them is missing. */
  lemma MissingBit(env: Env, f: Filter, key: Key) returns (i: nat)
    requires |f.vData| > 0 && !f.isEmpty && !Contains(env, f, key)
    ensures i < f.nHashFuncs
    ensures !BitAt(f.vData, env.murmur((i * 0xFBA4C795 + f.nTweak) % 0x1_0000_0000, key) % (8 * |f.vData|))
  {
    hide BitAt;
    i :| 0 <= i < f.nHashFuncs && !BitAt(f.vData, Index(env, f, i, key));
  }

  lemma BelowSelf(f: Filter)
    ensures Below(f, f)
  {
  }

  lemma BelowTransitive(f: Filter, g: Filter, h: Filter)
    requires Below(f, g) && Below(g, h)
    ensures Below(f, h)
  {
    hide BitAt;
  }

  /** Insertion keeps what is there, and adds the key unless the filter says it
      is full. */
  lemma InsertedHas(env: Env, f: Filter, key: Key)
    requires |f.vData| > 0
    ensures var g := Inserted(env, f, key);
      Below(f, g) && g.isFull == f.isFull && (f.isFull || (!g.isEmpty && Holds(env, g, key)))
  {
    hide BitAt, Index;
    if f.isFull {
      BelowSelf(f);
    } else {
      var g := Inserted(env, f, key);
      MarkedBits(env, f, key, f.nHashFuncs);
      forall i | 0 <= i < g.nHashFuncs ensures BitAt(g.vData, Index(env, g, i, key)) {
        IndexSame(env, f, g, i, key);
      }
    }
  }

  lemma IndexSame(env: Env, f: Filter, g: Filter, i: nat, key: Key)
    requires |f.vData| == |g.vData| > 0 && f.nTweak == g.nTweak
    ensures Index(env, f, i, key) == Index(env, g, i, key)
  {
  }

  /** The bits of the key are set. */
  ghost predicate Holds(env: Env, f: Filter, key: Key) {
    |f.vData| > 0 && HasBits(env, f, key)
  }

  lemma BelowHolds(env: Env, f: Filter, g: Filter, key: Key)
    requires Below(f, g) && Holds(env, f, key)
    ensures Holds(env, g, key)
  {
    hide BitAt;
    forall i | 0 <= i < g.nHashFuncs ensures BitAt(g.vData, Index(env, g, i, key)) {
      assert Index(env, g, i, key) == Index(env, f, i, key);
    }
  }

  /** The key is there to stay: its bits are set, and no refresh will find the
      filter empty. */
  ghost predicate Secure(env: Env, f: Filter, key: Key) {
    Holds(env, f, key) && !AllZeros(f.vData) && Open(f)
  }

  lemma SecureContains(env: Env, f: Filter, key: Key)
    requires Secure(env, f, key)
    ensures Contains(env, f, key) && (f.isEmpty ==> f.isFull)
  {
  }

  lemma BelowNotZero(f: Filter, g: Filter)
    requires Below(f, g) && !AllZeros(f.vData)
    ensures !AllZeros(g.vData)
  {
    hide BitAt, AllZeros;
    NotAllZeros(f.vData);
    NotAllZeros(g.vData);
  }

  lemma BelowSecure(env: Env, f: Filter, g: Filter, key: Key)
    requires Below(f, g) && Secure(env, f, key) && (g.isEmpty ==> g.isFull)
    ensures Secure(env, g, key)
  {
    hide AllZeros, HasBits, Below;
    BelowHolds(env, f, g, key);
    BelowNotZero(f, g);
  }

  // ---------------------------------------------------------------- flags

  function Refreshed(f: Filter): Filter { f.(isFull := AllOnes(f.vData), isEmpty := AllZeros(f.vData)) }

  // ---------------------------------------------------------------- transactions

  ghost predicate Matches(env: Env, f: Filter, pushes: seq<Key>)
    requires |f.vData| > 0
  {
    exists k :: 0 <= k < |pushes| && pushes[k] != [] && Contains(env, f, pushes[k])
  }

  /** Whether a matching output is added to the filter. */
  predicate Adds(f: Filter, o: TxOut) { f.update == UpdateAll || (f.update == UpdateP2PubKeyOnly && o.keyScript) }

  ghost function Scanned(env: Env, f: Filter, vout: seq<TxOut>, hash: nat, n: nat): (r: (Filter, bool))
    requires |f.vData| > 0 && n <= |vout|
    ensures |r.0.vData| == |f.vData|
  {
    if n == 0 then (f, false)
    else
      var (g, found) := Scanned(env, f, vout, hash, n - 1);
      if !Matches(env, g, vout[n - 1].pushes) then (g, found)
      else if Adds(g, vout[n - 1]) then (Inserted(env, g, env.outKey(OutPoint(hash, n - 1))), true)
      else (g, true)
  }

  ghost predicate InputMatches(env: Env, f: Filter, i: TxIn)
    requires |f.vData| > 0
  {
    Contains(env, f, env.outKey(i.prevout)) || Matches(env, f, i.pushes)
  }

  ghost function Relevant(env: Env, f: Filter, tx: Tx, hash: nat): (Filter, bool)
    requires |f.vData| > 0
  {
    if f.isFull then (f, true)
    else if f.isEmpty then (f, false)
    else
      var (g, found) := Scanned(env, f, tx.vout, hash, |tx.vout|);
      (g, Contains(env, f, env.hashKey(hash)) || found
          || exists j :: 0 <= j < |tx.vin| && InputMatches(env, g, tx.vin[j]))
  }

  /** Some part of the transaction is in the filter: its hash, data that an output
      pushes, or an outpoint it spends or data pushed to spend it. */
  ghost predicate Touches(env: Env, f: Filter, tx: Tx, hash: nat)
    requires |f.vData| > 0
  {
    || Contains(env, f, env.hashKey(hash))
    || (exists i, k :: 0 <= i < |tx.vout| && 0 <= k < |tx.vout[i].pushes| && tx.vout[i].pushes[k] != []
          && Contains(env, f, tx.vout[i].pushes[k]))
    || (exists j :: 0 <= j < |tx.vin| && Contains(env, f, env.outKey(tx.vin[j].prevout)))
    || (exists j, k :: 0 <= j < |tx.vin| && 0 <= k < |tx.vin[j].pushes| && tx.vin[j].pushes[k] != []
          && Contains(env, f, tx.vin[j].pushes[k]))
  }

  /** A filter that is not updated finds a transaction relevant exactly if it
      touches the filter, and stays as it is. */
  lemma RelevantExactly(env: Env, f: Filter, tx: Tx, hash: nat)
    requires |f.vData| > 0 && !f.isFull && !f.isEmpty && f.update == UpdateNone
    ensures Relevant(env, f, tx, hash).0 == f
    ensures Relevant(env, f, tx, hash).1 <==> Touches(env, f, tx, hash)
  {
    hide Contains;
    ScannedUnchanged(env, f, tx.vout, hash, |tx.vout|);
  }

  lemma {:induction false} ScannedUnchanged(env: Env, f: Filter, vout: seq<TxOut>, hash: nat, n: nat)
    requires |f.vData| > 0 && f.update == UpdateNone && n <= |vout|
    ensures var (g, found) := Scanned(env, f, vout, hash, n);
      g == f && (found <==> exists i :: 0 <= i < n && Matches(env, f, vout[i].pushes))
  {
    hide Matches;
    if n > 0 {
      ScannedUnchanged(env, f, vout, hash, n - 1);
    }
  }

  /** One that is updated finds it too. */
  lemma TouchedIsRelevant(env: Env, f: Filter, tx: Tx, hash: nat)
    requires |f.vData| > 0 && !f.isEmpty && Touches(env, f, tx, hash)
    ensures Relevant(env, f, tx, hash).1
  {
    hide Contains;
    if !f.isFull {
      var (g, found) := Scanned(env, f, tx.vout, hash, |tx.vout|);
      ScannedKeeps(env, f, tx.vout, hash, |tx.vout|);
      forall key | Contains(env, f, key) ensures Contains(env, g, key) {
        FoundAbove(env, f, g, key);
      }
      if i, k :| && 0 <= i < |tx.vout| && 0 <= k < |tx.vout[i].pushes| && tx.vout[i].pushes[k] != []
                 && Contains(env, f, tx.vout[i].pushes[k]) {
        ScannedFinds(env, f, tx.vout, hash, |tx.vout|, i, k);
      }
      if j :| 0 <= j < |tx.vin| && Contains(env, f, env.outKey(tx.vin[j].prevout)) {
        assert InputMatches(env, g, tx.vin[j]);
      }
      if j, k :| && 0 <= j < |tx.vin| && 0 <= k < |tx.vin[j].pushes| && tx.vin[j].pushes[k] != []
                 && Contains(env, f, tx.vin[j].pushes[k]) {
        assert InputMatches(env, g, tx.vin[j]);
      }
    }
  }

  lemma FoundAbove(env: Env, f: Filter, g: Filter, key: Key)
    requires |f.vData| > 0 && Below(f, g) && g.isFull == f.isFull && (Open(f) ==> Open(g))
    requires !f.isFull && Contains(env, f, key)
    ensures Contains(env, g, key)
  {
    hide BitAt, Index;
    forall i | 0 <= i < g.nHashFuncs ensures BitAt(g.vData, Index(env, g, i, key)) {
      IndexSame(env, f, g, i, key);
      assert BitAt(f.vData, Index(env, f, i, key));
    }
  }

  lemma {:induction false} ScannedFinds(env: Env, f: Filter, vout: seq<TxOut>, hash: nat, n: nat, i: nat, k: nat)
    requires |f.vData| > 0 && !f.isFull && !f.isEmpty && i < n <= |vout| && k < |vout[i].pushes|
    requires vout[i].pushes[k] != [] && Contains(env, f, vout[i].pushes[k])
    ensures Scanned(env, f, vout, hash, n).1
  {
    hide Contains, Inserted;
    if i == n - 1 {
      ScannedKeeps(env, f, vout, hash, i);
      FoundAbove(env, f, Scanned(env, f, vout, hash, i).0, vout[i].pushes[k]);
    } else {
      ScannedFinds(env, f, vout, hash, n - 1, i, k);
    }
  }

  /** Flags on which no key whose bits are set depends for being found. */
  predicate Open(f: Filter) { f.isEmpty ==> f.isFull }

  lemma {:induction false} ScannedKeeps(env: Env, f: Filter, vout: seq<TxOut>, hash: nat, n: nat)
    requires |f.vData| > 0 && n <= |vout|
    ensures var g := Scanned(env, f, vout, hash, n).0;
      Below(f, g) && g.isFull == f.isFull && (Open(f) ==> Open(g))
  {
    hide Below, Inserted, Matches, Holds;
    if n == 0 {
      BelowSelf(f);
    } else {
      ScannedKeeps(env, f, vout, hash, n - 1);
      var g := Scanned(env, f, vout, hash, n - 1).0;
      var key := env.outKey(OutPoint(hash, n - 1));
      InsertedHas(env, g, key);
      BelowTransitive(f, g, Inserted(env, g, key));
    }
  }

  // ---------------------------------------------------------------- runs

  datatype Op = Insert(key: Key) | Check(tx: Tx, hash: nat) | UpdateEmptyFull

  ghost function Step(env: Env, f: Filter, op: Op): (g: Filter)
    requires |f.vData| > 0
    ensures |g.vData| == |f.vData|
  {
    match op
    case Insert(key) => Inserted(env, f, key)
    case Check(tx, hash) => Relevant(env, f, tx, hash).0
    case UpdateEmptyFull => Refreshed(f)
  }

  ghost function Run(env: Env, f: Filter, ops: seq<Op>): (g: Filter)
    requires |f.vData| > 0
    ensures |g.vData| == |f.vData|
  {
    if ops == [] then f else Step(env, Run(env, f, ops[..|ops| - 1]), ops[|ops| - 1])
  }

  lemma StepBelow(env: Env, f: Filter, op: Op)
    requires |f.vData| > 0
    ensures Below(f, Step(env, f, op))
    ensures Open(f) && !AllZeros(f.vData) ==> Open(Step(env, f, op))
  {
    hide Below, Holds;
    BelowSelf(f);
    match op
    case Insert(key) => InsertedHas(env, f, key);
    case Check(tx, hash) => ScannedKeeps(env, f, tx.vout, hash, |tx.vout|);
    case UpdateEmptyFull => RefreshedBelow(f);
  }

  lemma RefreshedBelow(f: Filter)
    ensures Below(f, Refreshed(f))
  {
  }

  /** A key that is there to stay stays. */
  lemma {:induction false} RunSecure(env: Env, f: Filter, ops: seq<Op>, key: Key)
    requires |f.vData| > 0 && Secure(env, f, key)
    ensures Secure(env, Run(env, f, ops), key) && Below(f, Run(env, f, ops))
  {
    hide Below, Step, HasBits, AllZeros;
    if ops == [] {
      BelowSelf(f);
    } else {
      var g, op := Run(env, f, ops[..|ops| - 1]), ops[|ops| - 1];
      RunSecure(env, f, ops[..|ops| - 1], key);
      StepBelow(env, g, op);
      BelowSecure(env, g, Step(env, g, op), key);
      BelowTransitive(f, g, Step(env, g, op));
    }
  }

  // ---------------------------------------------------------------- keys that are never lost

  /** Whether f, told to remember the key, will: it has a hash function or
      a bit already, and if it says it is full, the key's bits are there. */
  ghost predicate WillKeep(env: Env, f: Filter, key: Key)
    requires |f.vData| > 0
  {
    if f.isFull then HasBits(env, f, key) && !AllZeros(f.vData)
    else f.nHashFuncs > 0 || !AllZeros(f.vData)
  }

  /** The key is found after whatever comes. */
  ghost predicate NeverLost(env: Env, f: Filter, key: Key)
    requires |f.vData| > 0
  {
    forall ops :: Contains(env, Run(env, f, ops), key)
  }

  lemma SecureNeverLost(env: Env, f: Filter, key: Key)
    requires |f.vData| > 0 && Secure(env, f, key)
    ensures NeverLost(env, f, key)
  {
    hide Secure, Contains;
    forall ops ensures Contains(env, Run(env, f, ops), key) {
      RunSecure(env, f, ops, key);
      SecureContains(env, Run(env, f, ops), key);
    }
  }

  /** A key survives everything only if it survives a refresh. */
  lemma SurvivesRefresh(env: Env, f: Filter, key: Key)
    requires |f.vData| > 0 && NeverLost(env, f, key)
    ensures HasBits(env, f, key) && !AllZeros(f.vData)
  {
    RunOfRefresh(env, f);
    assert Contains(env, Run(env, f, [UpdateEmptyFull]), key);
    if AllOnes(f.vData) {
      forall i | 0 <= i < f.nHashFuncs ensures BitAt(f.vData, Index(env, f, i, key)) {
        AllOnesBit(f.vData, Index(env, f, i, key));
      }
      assert f.vData[0] == 0xFF;
    } else {
      SameBits(env, f, Refreshed(f), key);
    }
  }

  lemma RunOfRefresh(env: Env, f: Filter)
    requires |f.vData| > 0
    ensures Run(env, f, [UpdateEmptyFull]) == Refreshed(f)
  {
    var ops := [UpdateEmptyFull];
    assert ops[..|ops| - 1] == [];
    assert Run(env, f, []) == f;
  }

  lemma SameBits(env: Env, f: Filter, g: Filter, key: Key)
    requires |f.vData| > 0 && g == f.(isFull := g.isFull, isEmpty := g.isEmpty) && HasBits(env, g, key)
    ensures HasBits(env, f, key)
  {
    forall i | 0 <= i < f.nHashFuncs ensures BitAt(f.vData, Index(env, f, i, key)) {
      assert BitAt(g.vData, Index(env, g, i, key));
      IndexSame(env, f, g, i, key);
    }
  }

  lemma InsertedSecure(env: Env, f: Filter, key: Key)
    requires |f.vData| > 0 && WillKeep(env, f, key)
    ensures Secure(env, Inserted(env, f, key), key)
  {
    hide HasBits, AllZeros, Below;
    var g := Inserted(env, f, key);
    InsertedHas(env, f, key);
    if !AllZeros(f.vData) {
      BelowNotZero(f, g);
    } else {
      FirstBit(env, g, key);
    }
  }

  lemma FirstBit(env: Env, f: Filter, key: Key)
    requires |f.vData| > 0 && HasBits(env, f, key) && f.nHashFuncs > 0
    ensures !AllZeros(f.vData)
  {
    assert BitAt(f.vData, Index(env, f, 0, key));
    AllOnesBit(f.vData, Index(env, f, 0, key));
  }

  /** For every filter with a byte: an inserted key is found after any later
      inserts, checks and refreshes exactly if the filter will keep it. */
  lemma InsertedNeverLost(env: Env, f: Filter, key: Key)
    requires |f.vData| > 0
    ensures NeverLost(env, Inserted(env, f, key), key) <==> WillKeep(env, f, key)
  {
    hide HasBits, NeverLost, Secure;
    var g := Inserted(env, f, key);
    if WillKeep(env, f, key) {
      InsertedSecure(env, f, key);
      SecureNeverLost(env, g, key);
    }
    if NeverLost(env, g, key) {
      SurvivesRefresh(env, g, key);
      assert f.nHashFuncs == 0 ==> g.vData == f.vData;
    }
  }

  /** So no key is lost by a filter with a hash function whose flags tell the
      truth. */
  lemma NoFalseNegatives(env: Env, f: Filter, key: Key, ops: seq<Op>)
    requires |f.vData| > 0 && Truthful(f) && f.nHashFuncs > 0
    ensures Contains(env, Run(env, Inserted(env, f, key), ops), key)
  {
    hide Contains;
    if f.isFull {
      forall i | 0 <= i < f.nHashFuncs ensures BitAt(f.vData, Index(env, f, i, key)) {
        AllOnesBit(f.vData, Index(env, f, i, key));
      }
      FirstBit(env, f, key);
    }
    InsertedNeverLost(env, f, key);
  }

  /** An output that matches in a check, and is of a kind the flags ask for, is
      held afterwards. */
  lemma {:induction false} MatchedOutputHeld(env: Env, f: Filter, vout: seq<TxOut>, hash: nat, n: nat, i: nat)
    requires |f.vData| > 0 && i < n <= |vout| && !f.isFull
    requires Matches(env, Scanned(env, f, vout, hash, i).0, vout[i].pushes) && Adds(f, vout[i])
    ensures Holds(env, Scanned(env, f, vout, hash, n).0, env.outKey(OutPoint(hash, i)))
  {
    hide Matches, Inserted, Holds, Below;
    var g := Scanned(env, f, vout, hash, n - 1).0;
    ScannedKeeps(env, f, vout, hash, n - 1);
    SameKind(f, g, vout[n - 1]);
    InsertedHas(env, g, env.outKey(OutPoint(hash, n - 1)));
    if i < n - 1 {
      MatchedOutputHeld(env, f, vout, hash, n - 1, i);
      BelowHolds(env, g, Inserted(env, g, env.outKey(OutPoint(hash, n - 1))), env.outKey(OutPoint(hash, i)));
    }
  }

  lemma SameKind(f: Filter, g: Filter, o: TxOut)
    requires Below(f, g)
    ensures g.nHashFuncs == f.nHashFuncs && (Adds(g, o) <==> Adds(f, o))
  {
  }

  /** Without a hash function a check sets no bit. */
  lemma {:induction false} NoHashNoBits(env: Env, f: Filter, vout: seq<TxOut>, hash: nat, n: nat)
    requires |f.vData| > 0 && n <= |vout| && f.nHashFuncs == 0
    ensures var g := Scanned(env, f, vout, hash, n).0; g.vData == f.vData && g.nHashFuncs == 0
  {
    hide Matches, Adds;
    if n > 0 {
      NoHashNoBits(env, f, vout, hash, n - 1);
    }
  }

  lemma CheckSecures(env: Env, f: Filter, tx: Tx, hash: nat, i: nat)
    requires |f.vData| > 0 && !f.isEmpty && i < |tx.vout| && WillKeep(env, f, env.outKey(OutPoint(hash, i)))
    requires Matches(env, Scanned(env, f, tx.vout, hash, i).0, tx.vout[i].pushes) && Adds(f, tx.vout[i])
    ensures Secure(env, Relevant(env, f, tx, hash).0, env.outKey(OutPoint(hash, i)))
  {
    hide Matches, Adds, HasBits, AllZeros, Below;
    var key, g := env.outKey(OutPoint(hash, i)), Relevant(env, f, tx, hash).0;
    ScannedKeeps(env, f, tx.vout, hash, |tx.vout|);
    if !f.isFull {
      MatchedOutputHeld(env, f, tx.vout, hash, |tx.vout|, i);
      SameKind(f, g, tx.vout[i]);
      if !AllZeros(f.vData) {
        BelowNotZero(f, g);
      } else {
        FirstBit(env, g, key);
      }
    }
  }

  /** Once an output has matched, and is of a kind to be added, its outpoint is
      never lost exactly if the filter will keep it. */
  lemma MatchedOutputNeverLost(env: Env, f: Filter, tx: Tx, hash: nat, i: nat)
    requires |f.vData| > 0 && !f.isEmpty && i < |tx.vout|
    requires Matches(env, Scanned(env, f, tx.vout, hash, i).0, tx.vout[i].pushes) && Adds(f, tx.vout[i])
    ensures var key := env.outKey(OutPoint(hash, i));
      NeverLost(env, Relevant(env, f, tx, hash).0, key) <==> WillKeep(env, f, key)
  {
    hide Matches, Adds, HasBits, NeverLost, Secure, Scanned;
    var key, g := env.outKey(OutPoint(hash, i)), Relevant(env, f, tx, hash).0;
    if WillKeep(env, f, key) {
      CheckSecures(env, f, tx, hash, i);
      SecureNeverLost(env, g, key);
    }
    if NeverLost(env, g, key) {
      SurvivesRefresh(env, g, key);
      if f.nHashFuncs == 0 {
        NoHashNoBits(env, f, tx.vout, hash, |tx.vout|);
      }
    }
  }

  /** A transaction that spends an outpoint the filter will not lose is relevant. */
  lemma SpenderIsRelevant(env: Env, f: Filter, tx: Tx, hash: nat, j: nat)
    requires |f.vData| > 0 && j < |tx.vin| && Secure(env, f, env.outKey(tx.vin[j].prevout))
    ensures Relevant(env, f, tx, hash).1
  {
    hide Holds, Contains, Matches, AllZeros, Below;
    var key := env.outKey(tx.vin[j].prevout);
    ScannedKeeps(env, f, tx.vout, hash, |tx.vout|);
    var g := Scanned(env, f, tx.vout, hash, |tx.vout|).0;
    BelowSecure(env, f, g, key);
    SecureContains(env, g, key);
    assert InputMatches(env, g, tx.vin[j]);
  }

  /** Then every later transaction that spends it is reported, whatever happened
      in between. */
  lemma MatchedOutputIsTracked(env: Env, f: Filter, tx: Tx, hash: nat, i: nat, ops: seq<Op>,
                               spender: Tx, spenderHash: nat, j: nat)
    requires |f.vData| > 0 && !f.isEmpty && WillKeep(env, f, env.outKey(OutPoint(hash, i)))
    requires i < |tx.vout| && j < |spender.vin| && spender.vin[j].prevout == OutPoint(hash, i)
    requires Matches(env, Scanned(env, f, tx.vout, hash, i).0, tx.vout[i].pushes) && Adds(f, tx.vout[i])
    ensures Relevant(env, f, tx, hash).1
    ensures Relevant(env, Run(env, Relevant(env, f, tx, hash).0, ops), spender, spenderHash).1
  {
    hide Matches, Secure, WillKeep, Contains, Adds, Below;
    var g := Relevant(env, f, tx, hash).0;
    CheckSecures(env, f, tx, hash, i);
    RunSecure(env, g, ops, env.outKey(OutPoint(hash, i)));
    SpenderIsRelevant(env, Run(env, g, ops), spender, spenderHash, j);
    if !f.isFull {
      FoundStays(env, f, tx.vout, hash, |tx.vout|, i);
    }
  }

  lemma {:induction false} FoundStays(env: Env, f: Filter, vout: seq<TxOut>, hash: nat, n: nat, i: nat)
    requires |f.vData| > 0 && i < n <= |vout|
    requires Matches(env, Scanned(env, f, vout, hash, i).0, vout[i].pushes)
    ensures Scanned(env, f, vout, hash, n).1
  {
    hide Matches, Inserted, Adds;
    if i < n - 1 {
      FoundStays(env, f, vout, hash, n - 1, i);
    }
  }

  // ---------------------------------------------------------------- two filters that lose a key

  /** Without a hash function, refreshing the flags of an all-zero filter loses
      every key. */
  lemma NeedsHashFunction(env: Env, f: Filter, key: Key)
    requires f == Filter([0], false, false, 0, 0, UpdateNone)
    ensures Truthful(f) && Contains(env, Inserted(env, f, key), key)
    ensures !Contains(env, Refreshed(Inserted(env, f, key)), key)
  {
    assert f.vData[0] == 0;
    assert !AllOnes(f.vData) && AllZeros(f.vData);
  }

  /** A filter read from the network says it is full until its flags are
      refreshed; what is inserted before that is lost. */
  lemma NeedsTruthfulFlags(env: Env, f: Filter, key: Key)
    requires f == Filter([0], true, false, 1, 0, UpdateNone)
    ensures !Truthful(f) && Contains(env, Inserted(env, f, key), key)
    ensures !Contains(env, Refreshed(Inserted(env, f, key)), key)
  {
    assert f.vData[0] == 0;
    assert !AllOnes(f.vData) && AllZeros(f.vData);
  }

  // ---------------------------------------------------------------- the code

  class BloomFilter {
    const env: Env
    var vData: seq<Byte>
    var isFull: bool
    var isEmpty: bool
    const nHashFuncs: nat
    const nTweak: nat
    const update: Update

    function View(): Filter
      reads this
    {
      Filter(vData, isFull, isEmpty, nHashFuncs, nTweak, update)
    }

    /** A filter of that many bytes. */
    constructor (env: Env, size: nat, nHashFuncs: nat, nTweak: nat, update: Update)
      ensures this.env == env && Truthful(View())
      ensures View() == Filter(vData, false, false, nHashFuncs, nTweak, update) && |vData| == size && AllZeros(vData)
    {
      this.env, this.nHashFuncs, this.nTweak, this.update := env, nHashFuncs, nTweak, update;
      vData, isFull, isEmpty := seq(size, _ => 0), false, false;
    }

    method insert(key: Key)
      requires |vData| > 0
      modifies this
      ensures View() == Inserted(env, old(View()), key) && |vData| == |old(vData)|
    {
      if isFull {
        return;
      }
      ghost var f := View();
      for i := 0 to nHashFuncs
        invariant View() == Marked(env, f, key, i)
      {
        var nIndex := Index(env, View(), i, key);
        IndexSame(env, f, View(), i, key);
        vData := vData[nIndex / 8 := Set(vData[nIndex / 8], nIndex % 8)];
      }
      isEmpty := false;
    }

    method contains(key: Key) returns (r: bool)
      requires |vData| > 0
      ensures r <==> Contains(env, View(), key)
    {
      if isFull {
        return true;
      }
      if isEmpty {
        return false;
      }
      for i := 0 to nHashFuncs
        invariant forall k :: 0 <= k < i ==> BitAt(vData, Index(env, View(), k, key))
      {
        var nIndex := Index(env, View(), i, key);
        if !Test(vData[nIndex / 8], nIndex % 8) {
          return false;
        }
      }
      return true;
    }

    /** Whether some datum that a script pushes is in the filter. */
    method ContainsPush(pushes: seq<Key>) returns (r: bool)
      requires |vData| > 0
      ensures r <==> Matches(env, View(), pushes)
    {
      hide Contains;
      for k := 0 to |pushes|
        invariant forall j :: 0 <= j < k && pushes[j] != [] ==> !Contains(env, View(), pushes[j])
      {
        var data := pushes[k];
        if |data| != 0 {
          var found := contains(data);
          if found {
            return true;
          }
        }
      }
      return false;
    }

    method IsRelevantAndUpdate(tx: Tx, hash: nat) returns (r: bool)
      requires |vData| > 0
      modifies this
      ensures (View(), r) == Relevant(env, old(View()), tx, hash)
    {
      hide Contains, Matches, Inserted;
      ghost var f := View();
      if isFull {
        return true;
      }
      if isEmpty {
        return false;
      }
      var fFound := contains(env.hashKey(hash));
      ghost var known := fFound;
      for i := 0 to |tx.vout|
        invariant |vData| == |f.vData| && View() == Scanned(env, f, tx.vout, hash, i).0
        invariant fFound == (known || Scanned(env, f, tx.vout, hash, i).1)
      {
        var matched := ContainsPush(tx.vout[i].pushes);
        if matched {
          fFound := true;
          if update == UpdateAll {
            insert(env.outKey(OutPoint(hash, i)));
          } else if update == UpdateP2PubKeyOnly {
            if tx.vout[i].keyScript {
              insert(env.outKey(OutPoint(hash, i)));
            }
          }
        }
      }
      if fFound {
        return true;
      }
      r := InputsMatch(tx.vin);
    }

    method InputsMatch(vin: seq<TxIn>) returns (r: bool)
      requires |vData| > 0
      ensures r <==> exists j :: 0 <= j < |vin| && InputMatches(env, View(), vin[j])
    {
      hide Contains, Matches;
      for j := 0 to |vin|
        invariant forall k :: 0 <= k < j ==> !InputMatches(env, View(), vin[k])
      {
        r := contains(env.outKey(vin[j].prevout));
        if r {
          return true;
        }
        r := ContainsPush(vin[j].pushes);
        if r {
          return true;
        }
      }
      return false;
    }

    method UpdateEmptyFull()
      modifies this
      ensures View() == Refreshed(old(View())) && Truthful(View())
    {
      var full, empty := true, true;
      for i := 0 to |vData|
        invariant full <==> forall k :: 0 <= k < i ==> vData[k] == 0xFF
        invariant empty <==> forall k :: 0 <= k < i ==> vData[k] == 0
        invariant View() == old(View())
      {
        full := full && vData[i] == 0xFF;
        empty := empty && vData[i] == 0;
      }
      isFull := full;
      isEmpty := empty;
    }
  }
}
