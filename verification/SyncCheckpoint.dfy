/** The synchronized checkpoint (src/checkpoints.cpp): a block that all new
    blocks have to descend from, moved forward by signed messages. */
module SyncCheckpoint {
  import opened BlockTree

  /** The known blocks, the current checkpoint, the one waiting for its block
      (0 if none) and the last one found in conflict, with the messages for the
      first two. */
  datatype State = State(index: Index, sync: Hash, pending: Hash, invalid: Hash,
                         message: Option<Hash>, pendingMessage: Option<Hash>)

  /** How the world answers: is the block in the main chain, can it be read,
      can it be made the best chain, is the checkpoint committed. */
  datatype World = World(inMain: bool, readOk: bool, bestOk: bool, writeOk: bool)

  ghost predicate Valid(s: State) { Tree(s.index) && s.sync in s.index }

  // ---------------------------------------------------------------- what the steps do

  /** Neither block is the other or before it. */
  ghost predicate Conflict(index: Index, a: Hash, b: Hash)
    requires Tree(index)
  {
    !Descends(index, a, b) && !Descends(index, b, a)
  }

  /** The checkpoint is examined: accepted, and otherwise remembered if in conflict. */
  ghost function Examined(s: State, h: Hash): (State, bool)
    requires Tree(s.index)
  {
    if s.sync !in s.index || h !in s.index then (s, false)
    else if Conflict(s.index, h, s.sync) then (s.(invalid := h), false)
    else (s, StrictlyDescends(s.index, h, s.sync))
  }

  /** It becomes the checkpoint, if the block can be made part of the main chain
      and the database takes it. */
  ghost function Moved(s: State, h: Hash, w: World, message: Option<Hash>): (State, bool) {
    if !w.inMain && !w.readOk then (s, false)
    else if !w.inMain && !w.bestOk then (s.(invalid := h), false)
    else if !w.writeOk then (s, false)
    else (s.(sync := h, pending := 0, message := message, pendingMessage := None), true)
  }

  ghost function Processed(s: State, h: Hash, signed: bool, w: World): (State, bool)
    requires Tree(s.index)
  {
    if !signed then (s, false)
    else if h !in s.index then (s.(pending := h, pendingMessage := Some(h)), false)
    else
      var (s1, ok) := Examined(s, h);
      if ok then Moved(s1, h, w, Some(h)) else (s1, false)
  }

  ghost function AcceptedPending(s: State, w: World): (State, bool)
    requires Tree(s.index)
  {
    if s.pending == 0 || s.pending !in s.index then (s, false)
    else
      var (s1, ok) := Examined(s, s.pending);
      if ok then Moved(s1, s.pending, w, s.pendingMessage)
      else (s1.(pending := 0, pendingMessage := None), false)
  }

  /** Whether a block with that parent may be accepted. */
  ghost predicate Passes(s: State, testNet: bool, block: Hash, prev: Hash)
    requires Valid(s) && prev in s.index
  {
    var height, at := s.index[prev].height + 1, s.index[s.sync].height;
    testNet
    || (if height > at then Descends(s.index, prev, s.sync)
        else if height == at then block == s.sync
        else block in s.index)
  }

  // ---------------------------------------------------------------- the code

  class Checkpoints {
    var mapBlockIndex: Index
    var hashSyncCheckpoint: Hash
    var hashPendingCheckpoint: Hash
    var hashInvalidCheckpoint: Hash
    var checkpointMessage: Option<Hash>
    var checkpointMessagePending: Option<Hash>

    function View(): State
      reads this
    {
      State(mapBlockIndex, hashSyncCheckpoint, hashPendingCheckpoint, hashInvalidCheckpoint,
            checkpointMessage, checkpointMessagePending)
    }

    constructor (index: Index, sync: Hash)
      ensures View() == State(index, sync, 0, 0, None, None)
    {
      mapBlockIndex, hashSyncCheckpoint := index, sync;
      hashPendingCheckpoint, hashInvalidCheckpoint := 0, 0;
      checkpointMessage, checkpointMessagePending := None, None;
    }

    /** Go back from a block while it is above a height. */
    method TraceBack(from: Hash, height: nat) returns (ok: bool, h: Hash)
      requires Tree(mapBlockIndex) && from in mapBlockIndex
      ensures ok && h == Back(mapBlockIndex, from, height)
    {
      h := from;
      while mapBlockIndex[h].height > height
        invariant h in mapBlockIndex && Back(mapBlockIndex, h, height) == Back(mapBlockIndex, from, height)
        decreases mapBlockIndex[h].height
      {
        if mapBlockIndex[h].prev == None {
          return false, h;
        }
        h := mapBlockIndex[h].prev.value;
      }
      ok := true;
    }

    method ValidateSyncCheckpoint(hash: Hash) returns (ok: bool)
      requires Tree(mapBlockIndex)
      modifies this`hashInvalidCheckpoint
      ensures (View(), ok) == Examined(old(View()), hash)
    {
      if hashSyncCheckpoint !in mapBlockIndex || hash !in mapBlockIndex {
        return false;
      }
      var nSync, nRecv := mapBlockIndex[hashSyncCheckpoint].height, mapBlockIndex[hash].height;
      var pindex;
      if nRecv <= nSync {
        ok, pindex := TraceBack(hashSyncCheckpoint, nRecv);
        if !ok {
          return false;
        }
        if pindex != hash {
          hashInvalidCheckpoint := hash;
        }
        return false;
      }
      ok, pindex := TraceBack(hash, nSync);
      if !ok {
        return false;
      }
      if pindex != hashSyncCheckpoint {
        hashInvalidCheckpoint := hash;
        return false;
      }
      return true;
    }

    /** Make the block part of the main chain and write the checkpoint. */
    method MakeCheckpoint(hash: Hash, w: World) returns (ok: bool)
      modifies this`hashInvalidCheckpoint, this`hashSyncCheckpoint
      ensures ok <==> (w.inMain || (w.readOk && w.bestOk)) && w.writeOk
      ensures View() == if ok then old(View()).(sync := hash)
        else if !w.inMain && w.readOk && !w.bestOk then old(View()).(invalid := hash) else old(View())
    {
      if !w.inMain {
        if !w.readOk {
          return false;
        }
        if !w.bestOk {
          hashInvalidCheckpoint := hash;
          return false;
        }
      }
      ok := WriteSyncCheckpoint(hash, w);
    }

    method WriteSyncCheckpoint(hash: Hash, w: World) returns (ok: bool)
      modifies this`hashSyncCheckpoint
      ensures ok == w.writeOk
      ensures hashSyncCheckpoint == if ok then hash else old(hashSyncCheckpoint)
    {
      if !w.writeOk {
        return false;
      }
      hashSyncCheckpoint := hash;
      ok := true;
    }

    method AcceptPendingSyncCheckpoint(w: World) returns (ok: bool)
      requires Tree(mapBlockIndex)
      modifies this
      ensures (View(), ok) == AcceptedPending(old(View()), w)
    {
      if hashPendingCheckpoint == 0 || hashPendingCheckpoint !in mapBlockIndex {
        return false;
      }
      var valid := ValidateSyncCheckpoint(hashPendingCheckpoint);
      if !valid {
        hashPendingCheckpoint := 0;
        checkpointMessagePending := None;
        return false;
      }
      ok := MakeCheckpoint(hashPendingCheckpoint, w);
      if ok {
        hashPendingCheckpoint := 0;
        checkpointMessage := checkpointMessagePending;
        checkpointMessagePending := None;
      }
    }

    method ProcessSyncCheckpoint(hash: Hash, signed: bool, w: World) returns (ok: bool)
      requires Tree(mapBlockIndex)
      modifies this
      ensures (View(), ok) == Processed(old(View()), hash, signed, w)
    {
      if !signed {
        return false;
      }
      if hash !in mapBlockIndex {
        hashPendingCheckpoint := hash;
        checkpointMessagePending := Some(hash);
        return false;
      }
      var valid := ValidateSyncCheckpoint(hash);
      if !valid {
        return false;
      }
      ok := MakeCheckpoint(hash, w);
      if ok {
        checkpointMessage := Some(hash);
        hashPendingCheckpoint := 0;
        checkpointMessagePending := None;
      }
    }

    method CheckSync(testNet: bool, block: Hash, prev: Hash) returns (ok: bool)
      requires Valid(View()) && prev in mapBlockIndex
      ensures ok <==> Passes(View(), testNet, block, prev)
    {
      if testNet {
        return true;
      }
      var nHeight := mapBlockIndex[prev].height + 1;
      var nSync := mapBlockIndex[hashSyncCheckpoint].height;
      if nHeight > nSync {
        var traced, pindex := TraceBack(prev, nSync);
        if !traced {
          return false;
        }
        if mapBlockIndex[pindex].height < nSync || pindex != hashSyncCheckpoint {
          return false;
        }
      }
      if nHeight == nSync && block != hashSyncCheckpoint {
        return false;
      }
      if nHeight < nSync && block !in mapBlockIndex {
        return false;
      }
      return true;
    }
  }

  // ---------------------------------------------------------------- runs

  datatype Step =
    | Process(hash: Hash, signed: bool, world: World)
    | AcceptPending(world: World)
    | Learn(index: Index)

  ghost predicate Enabled(s: State, step: Step) {
    Valid(s) && (step.Learn? ==> Grows(s.index, step.index))
  }

  ghost function Next(s: State, step: Step): State
    requires Enabled(s, step)
  {
    match step
    case Process(hash, signed, world) => Processed(s, hash, signed, world).0
    case AcceptPending(world) => AcceptedPending(s, world).0
    case Learn(index) => s.(index := index)
  }

  lemma NextValid(s: State, step: Step)
    requires Enabled(s, step)
    ensures Valid(Next(s, step)) && Grows(s.index, Next(s, step).index)
    ensures Descends(Next(s, step).index, Next(s, step).sync, s.sync)
    ensures Next(s, step).sync != s.sync ==> StrictlyDescends(Next(s, step).index, Next(s, step).sync, s.sync)
  {
    if step.Learn? {
      GrownDescends(s.index, step.index, s.sync, s.sync);
    }
  }

  ghost predicate Runs(s: State, steps: seq<Step>, t: State)
    decreases |steps|
  {
    if steps == [] then t == s && Valid(s)
    else
      var n := |steps| - 1;
      exists m :: Runs(s, steps[..n], m) && Enabled(m, steps[n]) && t == Next(m, steps[n])
  }

  /** Over any run the checkpoint is a known block, and it is the first one or
      descends from it. */
  lemma {:induction false} RunDescends(s: State, steps: seq<Step>, t: State)
    requires Runs(s, steps, t)
    ensures Valid(s) && Valid(t) && Grows(s.index, t.index) && Descends(t.index, t.sync, s.sync)
  {
    if steps != [] {
      var n := |steps| - 1;
      var m :| Runs(s, steps[..n], m) && Enabled(m, steps[n]) && t == Next(m, steps[n]);
      RunDescends(s, steps[..n], m);
      NextValid(m, steps[n]);
      GrownDescends(m.index, t.index, m.sync, s.sync);
      DescendsTransitive(t.index, t.sync, m.sync, s.sync);
    }
  }

  /** A checkpoint is left only for a strict descendant, so none comes back. */
  lemma CheckpointsAdvance(s: State, steps: seq<Step>, t: State)
    requires Runs(s, steps, t)
    ensures Valid(s) && Valid(t)
    ensures t.sync != s.sync ==> StrictlyDescends(t.index, t.sync, s.sync)
    ensures t.index[t.sync].height >= t.index[s.sync].height
  {
    RunDescends(s, steps, t);
    DescendsAntisymmetric(t.index, t.sync, s.sync);
  }

  /** Off the test network a block not yet known passes exactly if its parent is
      the checkpoint or descends from it. */
  lemma PassesExactly(s: State, block: Hash, prev: Hash)
    requires Valid(s) && prev in s.index && block !in s.index
    ensures Passes(s, false, block, prev) <==> Descends(s.index, prev, s.sync)
  {
  }

  /** So whatever block passes at some time descends strictly from every
      checkpoint there was before. */
  lemma NewBlocksDescend(s: State, steps: seq<Step>, t: State, block: Hash, prev: Hash)
    requires Runs(s, steps, t) && Valid(t) && prev in t.index && block !in t.index
    requires Passes(t, false, block, prev)
    ensures Valid(s) && Tree(Added(t.index, block, prev))
    ensures StrictlyDescends(Added(t.index, block, prev), block, s.sync)
  {
    RunDescends(s, steps, t);
    PassesExactly(t, block, prev);
    DescendsTransitive(t.index, prev, t.sync, s.sync);
    AddedDescends(t.index, block, prev, s.sync);
  }

  /** A block in conflict with a checkpoint never becomes one later, whether it
      is processed at once or waits as pending. */
  lemma ConflictStays(s: State, steps: seq<Step>, t: State, h: Hash)
    requires Runs(s, steps, t) && Valid(s) && h in s.index && Conflict(s.index, h, s.sync)
    ensures t.sync != h
  {
    RunDescends(s, steps, t);
    GrownDescends(s.index, t.index, h, s.sync);
  }

  /** A known block passes exactly if it is the checkpoint, descends from it or is
      below it. */
  lemma KnownPasses(s: State, block: Hash, prev: Hash)
    requires Valid(s) && block in s.index && s.index[block].prev == Some(prev)
    ensures prev in s.index
    ensures Passes(s, false, block, prev) <==>
      Descends(s.index, block, s.sync) || s.index[block].height < s.index[s.sync].height
  {
    DescendsByParent(s.index, block, s.sync);
  }

  // ---------------------------------------------------------------- progress

  /** Disk, best chain and database do what they are asked. */
  predicate Succeeds(w: World) { (w.inMain || (w.readOk && w.bestOk)) && w.writeOk }

  /** A message about a known block other than the checkpoint is adopted exactly
      if it is signed, the block strictly descends from the checkpoint and the
      world succeeds; if not, only the memory of a bad block may change. */
  lemma AdoptedExactly(s: State, h: Hash, signed: bool, w: World)
    requires Valid(s) && h in s.index && h != s.sync
    ensures var t := Next(s, Process(h, signed, w));
      && (t.sync == h <==> signed && StrictlyDescends(s.index, h, s.sync) && Succeeds(w))
      && (t.sync == h ==> t == State(s.index, h, 0, s.invalid, Some(h), None))
      && (t.sync != h ==> t == s.(invalid := t.invalid) && t.invalid in {s.invalid, h})
      && (signed && Conflict(s.index, h, s.sync) ==> t.invalid == h)
  {
  }

  /** A waiting block that became known is adopted, dropped, or goes on waiting
      because the world failed. */
  lemma PendingExactly(s: State, w: World)
    requires Valid(s) && s.pending != 0 && s.pending in s.index && s.pending != s.sync
    ensures var h, t := s.pending, Next(s, AcceptPending(w));
      && (t.sync == h <==> StrictlyDescends(s.index, h, s.sync) && Succeeds(w))
      && (t.sync == h ==> t == State(s.index, h, 0, s.invalid, s.pendingMessage, None))
      && (t.pending == h <==> StrictlyDescends(s.index, h, s.sync) && !Succeeds(w))
      && (t.sync != h ==> t.sync == s.sync && t.message == s.message && t.pending in {0, h})
      && (t.sync != h ==> t.pendingMessage == if t.pending == 0 then None else s.pendingMessage)
      && (t.invalid != s.invalid ==> t.invalid == h && t.sync == s.sync)
      && (Conflict(s.index, h, s.sync) ==> t.invalid == h && t.pending == 0)
  {
  }

  /** No new message to process. */
  predicate Quiet(step: Step) { step.Process? ==> !step.signed }

  lemma {:induction false} KeepsWaiting(s: State, steps: seq<Step>, t: State)
    requires Runs(s, steps, t) && (forall k :: 0 <= k < |steps| ==> Quiet(steps[k]))
    requires s.pending !in t.index
    ensures t == s.(index := t.index)
  {
    if steps != [] {
      var n := |steps| - 1;
      var m :| Runs(s, steps[..n], m) && Enabled(m, steps[n]) && t == Next(m, steps[n]);
      NextValid(m, steps[n]);
      KeepsWaiting(s, steps[..n], m);
    }
  }

  /** A signed message about a block still unknown waits for it, whatever else
      happens but another message; once the block is known and strictly descends
      from the checkpoint, it becomes the checkpoint, and nothing waits any more. */
  lemma PendingIsAdopted(s: State, h: Hash, w0: World, steps: seq<Step>, m: State, index: Index, w: World)
    requires Valid(s) && h !in s.index && h != 0
    requires Runs(Next(s, Process(h, true, w0)), steps, m) && h !in m.index
    requires forall k :: 0 <= k < |steps| ==> Quiet(steps[k])
    requires Enabled(m, Learn(index)) && StrictlyDescends(index, h, s.sync) && Succeeds(w)
    ensures m.pending == h && m.pendingMessage == Some(h) && m.sync == s.sync
    ensures Next(Next(m, Learn(index)), AcceptPending(w)) == State(index, h, 0, s.invalid, Some(h), None)
  {
    KeepsWaiting(Next(s, Process(h, true, w0)), steps, m);
  }
}
