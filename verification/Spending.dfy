/** Spending outputs and undoing it (src/core.cpp, src/core.h, src/main.cpp). */
module Spending {
  import opened VarInt
  import opened Outputs
  import opened CoinRecords

  /** The output spent and, if it was the last one, what was known of its
      transaction. */
  datatype InUndo = InUndo(out: TxOut, coinBase: bool, height: int, version: int)

  /** The coins after an attempt to spend output n, and the undo record if it
      was there to spend. */
  function Spent(c: Record, n: nat): (Record, Option<InUndo>) {
    if !Available(c.vout, n) then (c, None)
    else
      var left := Cleaned(c.vout[n := NULL]);
      (c.(vout := left),
       Some(if left == [] then InUndo(c.vout[n], c.coinBase, c.height, c.version)
            else InUndo(c.vout[n], false, 0, 0)))
  }

  /** One attempt after another. */
  function After(c: Record, ns: seq<nat>): Record {
    if ns == [] then c else Spent(After(c, ns[..|ns| - 1]), ns[|ns| - 1]).0
  }

  /** What the k-th attempt yields. */
  function Undo(c: Record, ns: seq<nat>, k: nat): Option<InUndo>
    requires k < |ns|
  {
    Spent(After(c, ns[..k]), ns[k]).1
  }

  lemma SpentAt(c: Record, n: nat)
    requires Canonical(c.vout)
    ensures Canonical(Spent(c, n).0.vout)
    ensures forall i: nat :: At(Spent(c, n).0.vout, i) == if i == n && Available(c.vout, n) then NULL else At(c.vout, i)
  {
    if Available(c.vout, n) {
      CleanedKeeps(c.vout[n := NULL]);
    }
  }

  /** After any attempts the outputs that were tried are gone and the others
      are as before. */
  lemma {:induction false} AfterAt(c: Record, ns: seq<nat>)
    requires Canonical(c.vout)
    ensures Canonical(After(c, ns).vout) && After(c, ns) == c.(vout := After(c, ns).vout)
    ensures forall i: nat :: At(After(c, ns).vout, i) == if i in ns && Available(c.vout, i) then NULL else At(c.vout, i)
  {
    if ns != [] {
      var before, n := ns[..|ns| - 1], ns[|ns| - 1];
      AfterAt(c, before);
      SpentAt(After(c, before), n);
      var b := After(c, before).vout;
      forall i: nat
        ensures At(After(c, ns).vout, i) == if i in ns && Available(c.vout, i) then NULL else At(c.vout, i)
      {
        assert i in ns <==> i in before || i == n;
        assert At(b, i) == if i in before && Available(c.vout, i) then NULL else At(c.vout, i);
        AvailableAt(b, i);
        AvailableAt(c.vout, i);
      }
    }
  }

  lemma AvailableAt(vout: seq<TxOut>, i: nat)
    ensures Available(vout, i) <==> !IsNull(At(vout, i))
  {
  }

  /** Every output is spent at most once: an attempt succeeds exactly if the
      output was there to begin with and has not been tried before. */
  lemma SpentOnce(c: Record, ns: seq<nat>, k: nat)
    requires Canonical(c.vout) && k < |ns|
    ensures Undo(c, ns, k).Some? <==> Available(c.vout, ns[k]) && ns[k] !in ns[..k]
    ensures Undo(c, ns, k).Some? ==> Undo(c, ns, k).value.out == c.vout[ns[k]]
  {
    AfterAt(c, ns[..k]);
    var b := After(c, ns[..k]).vout;
    assert At(b, ns[k]) == if ns[k] in ns[..k] && Available(c.vout, ns[k]) then NULL else At(c.vout, ns[k]);
    AvailableAt(b, ns[k]);
    AvailableAt(c.vout, ns[k]);
  }

  // ---------------------------------------------------------------- order

  lemma {:induction false} AfterNothing(c: Record, ns: seq<nat>)
    requires forall k :: 0 <= k < |ns| ==> !Available(c.vout, ns[k])
    ensures After(c, ns) == c
  {
    if ns != [] {
      AfterNothing(c, ns[..|ns| - 1]);
    }
  }

  predicate Clean(vout: seq<TxOut>) { vout == [] || !IsNull(vout[|vout| - 1]) }

  lemma CleanIsCleaned(vout: seq<TxOut>)
    requires Clean(vout)
    ensures Cleaned(vout) == vout
  {
  }

  /** Once something was spent, nothing spent is left at the end. */
  lemma {:induction false} AfterIsClean(c: Record, ns: seq<nat>, k: nat)
    requires Canonical(c.vout) && k < |ns| && Available(c.vout, ns[k])
    ensures Clean(After(c, ns).vout)
  {
    var m := |ns| - 1;
    var b := After(c, ns[..m]);
    AfterAt(c, ns[..m]);
    if Available(b.vout, ns[m]) {
      CleanedKeeps(b.vout[ns[m] := NULL]);
    } else if k < m {
      AfterIsClean(c, ns[..m], k);
    } else {
      AvailableAt(b.vout, ns[m]);
      AvailableAt(c.vout, ns[m]);
      var gone := At(b.vout, ns[m]);
      assert gone != At(c.vout, ns[m]);
      var j :| 0 <= j < m && ns[..m][j] == ns[m];
      AfterIsClean(c, ns[..m], j);
    }
  }

  /** The coins after attempts on the same outputs in any order, any number of
      times, are the same. */
  lemma OrderDoesNotMatter(c: Record, ms: seq<nat>, ns: seq<nat>)
    requires Canonical(c.vout) && forall i: nat :: i in ms <==> i in ns
    ensures After(c, ms) == After(c, ns)
  {
    if k :| 0 <= k < |ms| && Available(c.vout, ms[k]) {
      assert ms[k] in ns;
      var j :| 0 <= j < |ns| && ns[j] == ms[k];
      AfterIsClean(c, ms, k);
      AfterIsClean(c, ns, j);
      SameAfter(c, ms, ns);
    } else {
      forall j | 0 <= j < |ns| ensures !Available(c.vout, ns[j]) {
        assert ns[j] in ms;
      }
      AfterNothing(c, ms);
      AfterNothing(c, ns);
    }
  }

  lemma SameAfter(c: Record, ms: seq<nat>, ns: seq<nat>)
    requires Canonical(c.vout) && forall i: nat :: i in ms <==> i in ns
    requires Clean(After(c, ms).vout) && Clean(After(c, ns).vout)
    ensures After(c, ms) == After(c, ns)
  {
    AfterAt(c, ms);
    AfterAt(c, ns);
    var v, w := After(c, ms).vout, After(c, ns).vout;
    forall i: nat ensures At(v, i) == At(w, i) {
      assert At(v, i) == if i in ms && Available(c.vout, i) then NULL else At(c.vout, i);
    }
    CleanedUnique(v, w);
    CleanIsCleaned(v);
    CleanIsCleaned(w);
  }

  // ---------------------------------------------------------------- value

  function Total(vout: seq<TxOut>): int {
    if vout == [] then 0
    else Total(vout[..|vout| - 1]) + (if IsNull(vout[|vout| - 1]) then 0 else vout[|vout| - 1].value)
  }

  /** The value in the undo records of the first k attempts. */
  function UndoTotal(c: Record, ns: seq<nat>, k: nat): int
    requires k <= |ns|
  {
    if k == 0 then 0
    else UndoTotal(c, ns, k - 1) + (if Undo(c, ns, k - 1).Some? then Undo(c, ns, k - 1).value.out.value else 0)
  }

  lemma {:induction false} TotalCleaned(vout: seq<TxOut>)
    ensures Total(Cleaned(vout)) == Total(vout)
  {
    if vout != [] && IsNull(vout[|vout| - 1]) {
      TotalCleaned(vout[..|vout| - 1]);
    }
  }

  lemma {:induction false} TotalUpdate(vout: seq<TxOut>, n: nat)
    requires Available(vout, n)
    ensures Total(vout[n := NULL]) == Total(vout) - vout[n].value
  {
    var m := |vout| - 1;
    if n < m {
      assert vout[n := NULL][..m] == vout[..m][n := NULL];
      TotalUpdate(vout[..m], n);
    } else {
      assert vout[n := NULL][..m] == vout[..m];
    }
  }

  /** No value appears or disappears. */
  lemma {:induction false} ValueIsConserved(c: Record, ns: seq<nat>, k: nat)
    requires k <= |ns|
    ensures Total(After(c, ns[..k]).vout) + UndoTotal(c, ns, k) == Total(c.vout)
  {
    if k > 0 {
      ValueIsConserved(c, ns, k - 1);
      var b, n := After(c, ns[..k - 1]), ns[k - 1];
      assert ns[..k][..k - 1] == ns[..k - 1];
      if Available(b.vout, n) {
        TotalUpdate(b.vout, n);
        TotalCleaned(b.vout[n := NULL]);
      }
    }
  }

  // ---------------------------------------------------------------- the last one

  /** The undo record names the transaction exactly in the spend that leaves
      nothing, and that is the last one. */
  lemma LastSpendKeepsMetadata(c: Record, ns: seq<nat>, k: nat)
    requires Canonical(c.vout) && k < |ns| && Undo(c, ns, k).Some?
    ensures var u, left := Undo(c, ns, k).value, After(c, ns[..k + 1]).vout;
      u == if Pruned(left) then InUndo(u.out, c.coinBase, c.height, c.version) else InUndo(u.out, false, 0, 0)
    ensures Pruned(After(c, ns[..k + 1]).vout) ==> forall j :: k < j < |ns| ==> Undo(c, ns, j).None?
  {
    var b := After(c, ns[..k]);
    AfterAt(c, ns[..k]);
    assert ns[..k + 1][..k] == ns[..k];
    CleanedKeeps(b.vout[ns[k] := NULL]);
    if Pruned(After(c, ns[..k + 1]).vout) {
      forall j | k < j < |ns| ensures Undo(c, ns, j).None? {
        NothingAfterLast(c, ns, k + 1, j);
      }
    }
  }

  lemma NothingAfterLast(c: Record, ns: seq<nat>, k: nat, j: nat)
    requires Canonical(c.vout) && k <= j < |ns| && Pruned(After(c, ns[..k]).vout)
    ensures Undo(c, ns, j).None?
  {
    AfterAt(c, ns[..k]);
    SpentOnce(c, ns, j);
    var left, i := After(c, ns[..k]).vout, ns[j];
    assert At(left, i) == if i in ns[..k] && Available(c.vout, i) then NULL else At(c.vout, i);
    assert i in ns[..k] ==> i in ns[..j];
    AvailableAt(left, i);
    AvailableAt(c.vout, i);
  }

  // ---------------------------------------------------------------- undoing

  function Resized(vout: seq<TxOut>, n: nat): (r: seq<TxOut>)
    ensures |r| == if |vout| < n then n else |vout|
  {
    if |vout| < n then vout + seq(n - |vout|, _ => NULL) else vout
  }

  /** Putting a spent output back when its block is disconnected.  Whether the
      record holds metadata is told from its height. */
  function Restored(c: Record, n: nat, u: InUndo): Record {
    var base := if u.height != 0 then Record(u.coinBase, [], u.height, u.version) else c;
    base.(vout := Resized(base.vout, n + 1)[n := u.out])
  }

  /** Whether disconnecting finds the coins as it expects them. */
  predicate RestoresCleanly(c: Record, n: nat, u: InUndo) {
    && (u.height != 0 <==> Pruned(c.vout))
    && (u.height == 0 ==> !Available(c.vout, n))
  }

  /** It expects the output to be spent, and metadata exactly if nothing is left. */
  lemma CleanExactly(c: Record, n: nat, u: InUndo)
    ensures RestoresCleanly(c, n, u) <==> !Available(c.vout, n) && (u.height != 0 <==> Pruned(c.vout))
    ensures var r := Restored(c, n, u);
      && At(r.vout, n) == u.out && (forall i: nat :: i != n ==>
           At(r.vout, i) == if u.height == 0 then At(c.vout, i) else NULL)
      && (u.height == 0 ==> r == c.(vout := r.vout))
      && (u.height != 0 ==> r == Record(u.coinBase, r.vout, u.height, u.version))
  {
  }

  /** Undoing a spend gives the coins back, and finds them as expected, unless
      the last output went at height 0; then, and only then, it complains. */
  lemma RestoreUndoesSpend(c: Record, n: nat)
    requires Canonical(c.vout) && Clean(c.vout) && Available(c.vout, n)
    ensures var (left, u) := Spent(c, n);
      RestoresCleanly(left, n, u.value) <==> c.height != 0 || left.vout != []
    ensures var (left, u) := Spent(c, n);
      c.height != 0 || left.vout != [] ==> Restored(left, n, u.value) == c
  {
    var (left, u) := Spent(c, n);
    SpentAt(c, n);
    CleanedKeeps(c.vout[n := NULL]);
    AvailableAt(left.vout, n);
    assert At(left.vout, n) == NULL;
    if c.height != 0 || left.vout != [] {
      var r := Restored(left, n, u.value);
      forall i: nat ensures At(r.vout, i) == At(c.vout, i) {
        assert At(left.vout, i) == if i == n then NULL else At(c.vout, i);
      }
      RestoredIsClean(left, n, u.value);
      CleanedUnique(r.vout, c.vout);
      CleanIsCleaned(r.vout);
      CleanIsCleaned(c.vout);
    }
  }

  lemma RestoredIsClean(c: Record, n: nat, u: InUndo)
    requires Canonical(c.vout) && Clean(c.vout) && !IsNull(u.out)
    ensures Canonical(Restored(c, n, u).vout) && Clean(Restored(c, n, u).vout)
  {
  }

  /** Undo records for attempts that all succeed, taken back in reverse. */
  function Unwound(c: Record, ns: seq<nat>, us: seq<InUndo>): Record
    requires |us| == |ns|
    decreases |ns|
  {
    if ns == [] then c
    else
      var k := |ns| - 1;
      Unwound(Restored(c, ns[k], us[k]), ns[..k], us[..k])
  }

  lemma SpentWhenUndo(c: Record, n: nat)
    requires Canonical(c.vout) && Spent(c, n).1.Some?
    ensures Available(c.vout, n) && Clean(Spent(c, n).0.vout)
  {
    CleanedKeeps(c.vout[n := NULL]);
  }

  /** Disconnecting a block takes back all of its spends. */
  lemma {:induction false} UnwindingRestores(c: Record, ns: seq<nat>, us: seq<InUndo>)
    requires Canonical(c.vout) && Clean(c.vout) && c.height != 0 && |us| == |ns|
    requires forall k :: 0 <= k < |ns| ==> Undo(c, ns, k) == Some(us[k])
    ensures Clean(After(c, ns).vout) && Unwound(After(c, ns), ns, us) == c
  {
    hide Spent, Restored, RestoresCleanly, Available, Cleaned, Clean, Canonical;
    if ns == [] {
      assert us == [];
    } else {
      var k := |ns| - 1;
      forall j | 0 <= j < k ensures Undo(c, ns[..k], j) == Some(us[..k][j]) {
        assert ns[..k][..j] == ns[..j];
        assert Undo(c, ns, j) == Some(us[j]);
      }
      UnwindingRestores(c, ns[..k], us[..k]);
      AfterAt(c, ns[..k]);
      var b := After(c, ns[..k]);
      assert Undo(c, ns, k) == Some(us[k]);
      SpentWhenUndo(b, ns[k]);
      RestoreUndoesSpend(b, ns[k]);
    }
  }
}
