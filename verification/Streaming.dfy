/** Absorbing a message block by block through a buffer, whatever a block does
    to the state: the part that the hash functions share. */
module Streaming {
  import Arith

  /** All whole blocks of the data, in order. */
  function Absorb<S, B>(step: (S, seq<B>) -> S, lim: nat, s: S, data: seq<B>): S
    requires lim > 0
    decreases |data|
  {
    if |data| < lim then s else Absorb(step, lim, step(s, data[..lim]), data[lim..])
  }

  /** What is left of the data after its whole blocks. */
  function Rest<B>(lim: nat, data: seq<B>): (r: seq<B>)
    requires lim > 0
    ensures |r| < lim
    decreases |data|
  {
    if |data| < lim then data else Rest(lim, data[lim..])
  }

  /** A block buffer holding the start of the next block. */
  datatype Stream<S, B> = Stream(state: S, held: seq<B>)

  function Fed<S, B>(step: (S, seq<B>) -> S, lim: nat, x: Stream<S, B>, data: seq<B>): Stream<S, B>
    requires lim > 0
  {
    Stream(Absorb(step, lim, x.state, x.held + data), Rest(lim, x.held + data))
  }

  /** More data behind: first the whole blocks so far, then the rest with it. */
  lemma {:induction false} AbsorbMore<S, B>(step: (S, seq<B>) -> S, lim: nat, s: S, a: seq<B>, b: seq<B>)
    requires lim > 0
    ensures Absorb(step, lim, s, a + b) == Absorb(step, lim, Absorb(step, lim, s, a), Rest(lim, a) + b)
    ensures Rest(lim, a + b) == Rest(lim, Rest(lim, a) + b)
    decreases |a|
  {
    if |a| >= lim {
      assert (a + b)[..lim] == a[..lim] && (a + b)[lim..] == a[lim..] + b;
      AbsorbMore(step, lim, step(s, a[..lim]), a[lim..], b);
    }
  }

  /** Feeding in two pieces is feeding their concatenation. */
  lemma FedTwice<S, B>(step: (S, seq<B>) -> S, lim: nat, x: Stream<S, B>, a: seq<B>, b: seq<B>)
    requires lim > 0
    ensures Fed(step, lim, Fed(step, lim, x, a), b) == Fed(step, lim, x, a + b)
  {
    AbsorbMore(step, lim, x.state, x.held + a, b);
    assert (x.held + a) + b == x.held + (a + b);
  }

  /** Feeding chunk after chunk. */
  function FedAll<S, B>(step: (S, seq<B>) -> S, lim: nat, x: Stream<S, B>, chunks: seq<seq<B>>): Stream<S, B>
    requires lim > 0
  {
    if chunks == [] then x
    else Fed(step, lim, FedAll(step, lim, x, chunks[..|chunks| - 1]), chunks[|chunks| - 1])
  }

  function Concat<B>(chunks: seq<seq<B>>): seq<B> {
    if chunks == [] then [] else Concat(chunks[..|chunks| - 1]) + chunks[|chunks| - 1]
  }

  /** However a message is cut into chunks, feeding them is feeding it whole. */
  lemma {:induction false} ChunksDoNotMatter<S, B>(step: (S, seq<B>) -> S, lim: nat, x: Stream<S, B>,
                                                   chunks: seq<seq<B>>)
    requires lim > 0 && |x.held| < lim
    ensures FedAll(step, lim, x, chunks) == Fed(step, lim, x, Concat(chunks))
  {
    if chunks == [] {
      assert x.held + [] == x.held;
    } else {
      var n := |chunks| - 1;
      ChunksDoNotMatter(step, lim, x, chunks[..n]);
      FedTwice(step, lim, x, Concat(chunks[..n]), chunks[n]);
    }
  }

  lemma {:induction false} RestLength<B>(lim: nat, data: seq<B>)
    requires lim > 0
    ensures |Rest(lim, data)| == |data| % lim
    decreases |data|
  {
    if |data| >= lim {
      RestLength(lim, data[lim..]);
      Arith.ModSub(|data|, lim);
    }
  }

  /** Two steps that commute with a map of states absorb alike. */
  lemma {:induction false} AbsorbThrough<S, U, B>(f: (S, seq<B>) -> S, g: (U, seq<B>) -> U, h: S -> U, lim: nat,
                                                  s: S, data: seq<B>)
    requires lim > 0
    requires forall s, b :: |b| == lim ==> g(h(s), b) == h(f(s, b))
    ensures Absorb(g, lim, h(s), data) == h(Absorb(f, lim, s, data))
    decreases |data|
  {
    if |data| >= lim {
      AbsorbThrough(f, g, h, lim, f(s, data[..lim]), data[lim..]);
    }
  }

  /** What is left over is the end of the data, and has not been absorbed. */
  lemma {:induction false} RestIsTail<S, B>(step: (S, seq<B>) -> S, lim: nat, s: S, data: seq<B>)
    requires lim > 0
    ensures var n := |data| - |data| % lim;
      0 <= n <= |data| && n % lim == 0 && Rest(lim, data) == data[n..]
      && Absorb(step, lim, s, data[..n]) == Absorb(step, lim, s, data)
    decreases |data|
  {
    var n := |data| - |data| % lim;
    WholePart(|data|, lim);
    if |data| >= lim {
      Arith.ModSub(|data|, lim);
      RestIsTail(step, lim, step(s, data[..lim]), data[lim..]);
      assert data[..n][..lim] == data[..lim] && data[..n][lim..] == data[lim..][..n - lim];
      assert data[lim..][n - lim..] == data[n..];
    }
  }

  lemma WholePart(a: nat, lim: nat)
    requires lim > 0
    ensures 0 <= a - a % lim <= a && (a - a % lim) % lim == 0
    ensures a >= lim ==> a - a % lim >= lim
  {
    assert a - a % lim == (a / lim) * lim + 0;
    Arith.DivModUnique(a - a % lim, lim, a / lim, 0);
    if a >= lim {
      Arith.ModSub(a, lim);
    }
  }

  /** A chunk that fits: it is kept, or completes one block. */
  lemma FedChunk<S, B>(step: (S, seq<B>) -> S, lim: nat, x: Stream<S, B>, chunk: seq<B>)
    requires lim > 0 && |x.held| + |chunk| <= lim
    ensures Fed(step, lim, x, chunk) ==
      if |x.held| + |chunk| < lim then Stream(x.state, x.held + chunk)
      else Stream(step(x.state, x.held + chunk), [])
  {
    var data := x.held + chunk;
    if |data| == lim {
      assert data[..lim] == data && data[lim..] == [];
      assert Absorb(step, lim, x.state, data) == Absorb(step, lim, step(x.state, data), []);
      assert Rest(lim, data) == Rest(lim, data[lim..]);
    }
  }

  lemma FedNothing<S, B>(step: (S, seq<B>) -> S, lim: nat, x: Stream<S, B>)
    requires |x.held| < lim
    ensures Fed(step, lim, x, []) == x
  {
    assert x.held + [] == x.held;
  }

  /** memcpy into a buffer. */
  method CopyTo<B>(buf: array<B>, at: nat, data: seq<B>)
    requires at + |data| <= buf.Length
    modifies buf
    ensures buf[..at + |data|] == old(buf[..at]) + data
    ensures buf[at + |data|..] == old(buf[at + |data|..])
  {
    forall i | 0 <= i < |data| {
      buf[at + i] := data[i];
    }
  }
}
