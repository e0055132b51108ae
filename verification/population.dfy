/**
  The entities the engine owns: the genome of one neural network (its weight
  vector and its connection mask) and an individual, which pairs a genome
  with the fitness last computed for it.
 */
module Population {
  import opened Bytes

  /** Weights are kept as the bit patterns of the `double`s they are. */
  datatype Genome = Genome(weights: seq<word64>, connections: seq<bool>)

  datatype Individual = Individual(genome: Genome, fitness: int)

  /** The genome has the topology size w for both of its vectors. */
  predicate HasSize(g: Genome, w: nat) {
    |g.weights| == w && |g.connections| == w
  }

  /** Every genome of gs has topology size w. */
  predicate AllHaveSize(gs: seq<Genome>, w: nat) {
    forall i :: 0 <= i < |gs| ==> HasSize(gs[i], w)
  }

  /** The genomes of a population, in order. */
  function GenomesOf(s: seq<Individual>): (gs: seq<Genome>)
    ensures |gs| == |s|
    ensures forall i :: 0 <= i < |s| ==> gs[i] == s[i].genome
  {
    seq(|s|, i requires 0 <= i < |s| => s[i].genome)
  }

  lemma GenomesOfAppend(a: seq<Individual>, b: seq<Individual>)
    ensures GenomesOf(a + b) == GenomesOf(a) + GenomesOf(b)
  {
  }

  /** Reordering a population reorders its genomes the same way. */
  lemma {:induction false} PermutationKeepsGenomes(s: seq<Individual>, t: seq<Individual>)
    requires multiset(s) == multiset(t)
    ensures multiset(GenomesOf(s)) == multiset(GenomesOf(t))
    decreases |s|
  {
    if |s| == 0 {
      assert |t| == |multiset(t)| == 0;
    } else {
      var x := s[0];
      assert x in multiset(t);
      var j :| 0 <= j < |t| && t[j] == x;
      var rest := t[..j] + t[j + 1..];
      assert t == t[..j] + [x] + t[j + 1..];
      assert s == [x] + s[1..];
      calc {
        multiset(s[1..]) + multiset{x};
        multiset(s);
        multiset(t);
        multiset(t[..j]) + multiset{x} + multiset(t[j + 1..]);
        multiset(rest) + multiset{x};
      }
      assert multiset(s[1..]) == multiset(rest) + multiset{x} - multiset{x};
      PermutationKeepsGenomes(s[1..], rest);
      GenomesOfAppend([x], s[1..]);
      GenomesOfAppend(t[..j], [x]);
      GenomesOfAppend(t[..j] + [x], t[j + 1..]);
      GenomesOfAppend(t[..j], t[j + 1..]);
    }
  }
}
