/** Work split into chunks, one thread each.  The threads of the repository's worker scopes touch
    disjoint data, so a run is described by the order in which the chunks are carried out. */
module Threads {
  import opened Modular
  import opened Permutation

  function NumChunks(len: nat, chunk: nat): nat
    requires chunk > 0
  {
    if len % chunk == 0 then len / chunk else len / chunk + 1
  }

  /** Every chunk of `len` elements once, in any order. */
  ghost predicate Schedule(order: seq<nat>, len: nat, chunk: nat) {
    chunk > 0 && |order| == NumChunks(len, chunk) && IsPerm(order, 0)
  }

  ghost predicate InChunk(c: nat, chunk: nat, i: nat) {
    c * chunk <= i < c * chunk + chunk
  }

  lemma {:induction false} ChunkOf(len: nat, chunk: nat, i: nat)
    requires chunk > 0 && i < len
    ensures i / chunk < NumChunks(len, chunk) && InChunk(i / chunk, chunk, i)
  {
    var c, n := i / chunk, len / chunk;
    assert i == chunk * c + i % chunk && len == chunk * n + len % chunk;
    if c > n {
      BlocksInOrder(chunk, n, c);
    } else if c == n {
      assert len % chunk != 0;
    }
  }

  lemma {:induction false} OneChunk(chunk: nat, i: nat, c: nat, d: nat)
    requires InChunk(c, chunk, i) && InChunk(d, chunk, i)
    ensures c == d
  {
    if c < d { BlocksInOrder(chunk, c, d); }
    if d < c { BlocksInOrder(chunk, d, c); }
  }

  lemma {:induction false} ChunkStarts(len: nat, chunk: nat, c: nat)
    requires chunk > 0 && c < NumChunks(len, chunk)
    ensures 0 <= c * chunk < len
  {
    var n := len / chunk;
    assert len == chunk * n + len % chunk;
    if c < n { BlocksInOrder(chunk, c, n); }
  }

  /** The step at which the thread of element `i` runs. */
  ghost predicate Turn(order: seq<nat>, chunk: nat, turn: seq<nat>, x: nat, i: nat)
    requires x < |order| && i < |turn|
  {
    turn[i] == x <==> InChunk(order[x], chunk, i)
  }

  lemma {:induction false} TurnOf(order: seq<nat>, len: nat, chunk: nat, i: nat) returns (t: nat)
    requires Schedule(order, len, chunk) && i < len
    ensures t < |order| && forall x: nat | x < |order| :: t == x <==> InChunk(order[x], chunk, i)
  {
    ChunkOf(len, chunk, i);
    t := PermIsOnto(order, 0, i / chunk);
    assert order[t] == i / chunk;
    forall x: nat | x < |order| ensures t == x <==> InChunk(order[x], chunk, i) {
      if InChunk(order[x], chunk, i) { OneChunk(chunk, i, order[x], order[t]); }
    }
  }

  /** Every element has its turn, once. */
  lemma {:induction false} Turns(order: seq<nat>, len: nat, chunk: nat, count: nat) returns (turn: seq<nat>)
    requires Schedule(order, len, chunk) && count <= len
    ensures |turn| == count && (forall i | 0 <= i < count :: turn[i] < |order|)
    ensures forall x: nat, i: nat | x < |order| && i < count :: Turn(order, chunk, turn, x, i)
  {
    if count == 0 {
      turn := [];
    } else {
      var before := Turns(order, len, chunk, count - 1);
      var t := TurnOf(order, len, chunk, count - 1);
      turn := before + [t];
      forall x: nat, i: nat | x < |order| && i < count ensures Turn(order, chunk, turn, x, i) {
        if i < count - 1 { assert Turn(order, chunk, before, x, i); }
      }
    }
  }

  method ChunkBounds(len: nat, chunk: nat, c: nat) returns (lo: nat, hi: nat)
    requires chunk > 0 && c < NumChunks(len, chunk)
    ensures lo == c * chunk && lo < hi <= len && hi <= lo + chunk
    ensures forall i: nat | i < len :: lo <= i < hi <==> InChunk(c, chunk, i)
  {
    ChunkStarts(len, chunk, c);
    lo := c * chunk;
    hi := if lo + chunk <= len then lo + chunk else len;
  }
}
