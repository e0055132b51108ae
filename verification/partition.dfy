/**
  How `Genetic::updateAndEvolve` divides the population indices [0, P) among
  the N processes of the group: every rank but the last gets a chunk of
  P / N consecutive indices, and the last rank's range runs to P - 1.
 */
module Partition {
  import opened Bytes

  /** An inclusive index range [start, end]; empty when end < start. */
  datatype Shard = Shard(start: int, end: int) {
    predicate Contains(i: int) {
      start <= i <= end
    }
  }

  function ChunkSize(p: nat, n: nat): nat
    requires n >= 1
  {
    p / n
  }

  /** The range of population indices whose fitness rank r evaluates. */
  function ShardOf(p: nat, n: nat, r: nat): (s: Shard)
    requires n >= 1 && r < n
    ensures 0 <= s.start <= s.end + 1 <= p
    ensures r < n - 1 ==> s.end - s.start + 1 == p / n
    ensures r == n - 1 ==> s.end == p - 1
  {
    var chunk := ChunkSize(p, n);
    var start := r * chunk;
    ChunkBound(p, n, r);
    if r == n - 1 then Shard(start, p - 1) else Shard(start, start + chunk - 1)
  }

  lemma ChunkBound(p: nat, n: nat, r: nat)
    requires n >= 1 && r < n
    ensures (r + 1) * (p / n) <= p
  {
    assert (r + 1) * (p / n) <= n * (p / n) by {
      MulLeftMonotone(r + 1, n, p / n);
    }
  }

  /** The one rank whose shard holds index i. */
  function OwnerOf(p: nat, n: nat, i: nat): (r: nat)
    requires n >= 1
    ensures r < n
  {
    var chunk := ChunkSize(p, n);
    if chunk == 0 then n - 1
    else if i / chunk < n - 1 then i / chunk
    else n - 1
  }

  lemma DivisionCharacterization(i: nat, c: nat, r: nat)
    requires c >= 1
    ensures i / c == r <==> r * c <= i < r * c + c
    ensures i / c >= r <==> r * c <= i
  {
    var q := i / c;
    assert q * c <= i < q * c + c;
    if q < r {
      assert q * c + c == (q + 1) * c;
      MulLeftMonotone(q + 1, r, c);
    }
    if q > r {
      MulLeftMonotone(r + 1, q, c);
    }
  }

  /**
    Index i lies in rank r's shard exactly when r is its owner: the shards
    cover [0, P) and no two of them overlap, also when N > P.
   */
  lemma ShardMembership(p: nat, n: nat, r: nat, i: nat)
    requires n >= 1 && r < n && i < p
    ensures ShardOf(p, n, r).Contains(i) <==> r == OwnerOf(p, n, i)
  {
    var c := ChunkSize(p, n);
    if c >= 1 {
      DivisionCharacterization(i, c, r);
      DivisionCharacterization(i, c, n - 1);
    }
  }

  /** Every index of the population is evaluated by exactly one rank. */
  lemma ExactlyOneOwner(p: nat, n: nat, i: nat)
    requires n >= 1 && i < p
    ensures (set r | 0 <= r < n && ShardOf(p, n, r).Contains(i)) == {OwnerOf(p, n, i)}
  {
    forall r | 0 <= r < n
      ensures ShardOf(p, n, r).Contains(i) <==> r == OwnerOf(p, n, i)
    {
      ShardMembership(p, n, r, i);
    }
  }

  /** Consecutive ranks own adjacent ranges: no gap, no overlap. */
  lemma ShardsAdjacent(p: nat, n: nat, r: nat)
    requires n >= 1 && r + 1 < n
    ensures ShardOf(p, n, r + 1).start == ShardOf(p, n, r).end + 1
  {
    assert (r + 1) * ChunkSize(p, n) == r * ChunkSize(p, n) + ChunkSize(p, n);
  }

  /** Ten individuals over three processes: [0,2], [3,5], [6,9]. */
  lemma TenOverThree()
    ensures ShardOf(10, 3, 0) == Shard(0, 2)
    ensures ShardOf(10, 3, 1) == Shard(3, 5)
    ensures ShardOf(10, 3, 2) == Shard(6, 9)
  {
  }
}
