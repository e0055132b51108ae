/**
  The selection engine of `Genetic`: `bestIndividuals` recomputes every
  fitness, sorts the population by descending fitness and returns its best
  fifth; `nextGeneration` copies the first half of those elites into new
  individuals and fills the remaining slots with children of two elites.
 */
module Selection {
  import opened Population

  /** Non-increasing fitness from front to back: the order `a->fitness > b->fitness` sorts into. */
  predicate SortedByFitness(s: seq<Individual>) {
    forall i, j :: 0 <= i < j < |s| ==> s[i].fitness >= s[j].fitness
  }

  /** x placed into a sorted population in front of the first one it is at least as fit as. */
  function Insert(x: Individual, s: seq<Individual>): (r: seq<Individual>)
    requires SortedByFitness(s)
    ensures |r| == |s| + 1
    ensures r[0] == x || (|s| > 0 && r[0] == s[0])
    ensures SortedByFitness(r)
    ensures multiset(r) == multiset(s) + multiset{x}
  {
    if |s| == 0 then [x]
    else if x.fitness >= s[0].fitness then [x] + s
    else
      var t := Insert(x, s[1..]);
      assert s == [s[0]] + s[1..];
      assert s[0].fitness >= t[0].fitness;
      [s[0]] + t
  }

  /**
    The population in non-increasing fitness order. `std::sort` is not
    stable; this is one of the orders it may produce.
   */
  function SortByFitness(s: seq<Individual>): (r: seq<Individual>)
    ensures SortedByFitness(r)
    ensures multiset(r) == multiset(s)
  {
    if |s| == 0 then []
    else
      assert s == [s[0]] + s[1..];
      Insert(s[0], SortByFitness(s[1..]))
  }

  lemma SortedPermutationLength(s: seq<Individual>)
    ensures |SortByFitness(s)| == |s|
  {
    assert |multiset(SortByFitness(s))| == |multiset(s)|;
  }

  /**
    Any two fitness orderings of the same population hold the same fitness
    at every position. `std::sort` may order equal-fitness individuals either
    way; whichever order it picks, this much is fixed.
   */
  lemma {:induction false} SortedPermutationsAgree(s: seq<Individual>, t: seq<Individual>)
    requires SortedByFitness(s) && SortedByFitness(t)
    requires multiset(s) == multiset(t)
    ensures |s| == |t|
    ensures forall i :: 0 <= i < |s| ==> s[i].fitness == t[i].fitness
    decreases |s|
  {
    if |s| == 0 {
      assert |t| == |multiset(t)| == 0;
    } else {
      assert s[0] in multiset(t);
      var j :| 0 <= j < |t| && t[j] == s[0];
      RemoveMatching(s, t, j);
      RemoveKeepsSorted(t, j);
      SortedPermutationsAgree(s[1..], t[..j] + t[j + 1..]);
      assert t[0] in multiset(s);
      ShiftedAgree(s, t, j, t[..j] + t[j + 1..]);
    }
  }

  /** Taking the same individual out of two permutations of each other leaves permutations. */
  lemma RemoveMatching(s: seq<Individual>, t: seq<Individual>, j: nat)
    requires |s| > 0 && j < |t| && t[j] == s[0]
    requires multiset(s) == multiset(t)
    ensures multiset(s[1..]) == multiset(t[..j] + t[j + 1..])
  {
    var x := s[0];
    var rest := t[..j] + t[j + 1..];
    assert t == t[..j] + [x] + t[j + 1..];
    assert s == [x] + s[1..];
    calc {
      multiset(s[1..]) + multiset{x};
      multiset(s);
      multiset(t);
      multiset(t[..j]) + multiset{x} + multiset(t[j + 1..]);
      multiset(rest) + multiset{x};
    }
    assert multiset(s[1..]) == multiset(rest) + multiset{x} - multiset{x};
  }

  /**
    When s's tail agrees in fitness with t minus its j-th element, and s's
    head, t's head and t[j] are equally fit, s and t agree at every position:
    everything t holds before j ties with t[j].
   */
  lemma ShiftedAgree(s: seq<Individual>, t: seq<Individual>, j: nat, rest: seq<Individual>)
    requires SortedByFitness(t) && j < |t| && |s| == |t|
    requires rest == t[..j] + t[j + 1..]
    requires s[0].fitness == t[j].fitness && t[0].fitness <= s[0].fitness
    requires forall i :: 0 <= i < |rest| ==> s[i + 1].fitness == rest[i].fitness
    ensures forall i :: 0 <= i < |s| ==> s[i].fitness == t[i].fitness
  {
    forall i | 0 <= i < |s|
      ensures s[i].fitness == t[i].fitness
    {
      if 0 < i <= j {
        assert rest[i - 1] == t[i - 1];
      } else if i > j {
        assert rest[i - 1] == t[i];
      }
    }
  }

  /** Taking one individual out of a sorted population leaves it sorted. */
  lemma RemoveKeepsSorted(t: seq<Individual>, j: nat)
    requires SortedByFitness(t) && j < |t|
    ensures SortedByFitness(t[..j] + t[j + 1..])
  {
    var rest := t[..j] + t[j + 1..];
    forall a, b | 0 <= a < b < |rest|
      ensures rest[a].fitness >= rest[b].fitness
    {
      var ta := if a < j then a else a + 1;
      var tb := if b < j then b else b + 1;
      assert rest[a] == t[ta] && rest[b] == t[tb];
    }
  }

  /**
    Every individual with its fitness recomputed from its genome by `fit`,
    the simulation's fitness function.
   */
  function Evaluate(s: seq<Individual>, fit: Genome -> int): (r: seq<Individual>)
    ensures GenomesOf(r) == GenomesOf(s)
    ensures forall i :: 0 <= i < |r| ==> r[i].fitness == fit(r[i].genome)
  {
    seq(|s|, i requires 0 <= i < |s| => Individual(s[i].genome, fit(s[i].genome)))
  }

  /**
    The size of the elite pool, `(int)(individuals.size() * 0.2)`, for a
    population of n.
   */
  function EliteCount(n: nat): nat {
    n / 5
  }

  /** What `bestIndividuals` leaves behind: the reordered population and its best fifth. */
  datatype Ranking = Ranking(ranked: seq<Individual>, elite: seq<Individual>)

  /**
    `bestIndividuals`. It logs the fitness of the first ten individuals, so
    the population must hold at least ten, and the elite pool then holds at
    least two.
   */
  function BestIndividuals(pop: seq<Individual>, fit: Genome -> int): (r: Ranking)
    requires |pop| >= 10
    ensures |r.ranked| == |pop|
    ensures multiset(r.ranked) == multiset(Evaluate(pop, fit))
    ensures multiset(GenomesOf(r.ranked)) == multiset(GenomesOf(pop))
    ensures forall i :: 0 <= i < |r.ranked| ==> r.ranked[i].fitness == fit(r.ranked[i].genome)
    ensures SortedByFitness(r.ranked)
    ensures |r.elite| == EliteCount(|pop|) >= 2
    ensures r.elite == r.ranked[..|r.elite|]
    ensures forall i, j :: 0 <= i < |r.elite| <= j < |r.ranked| ==> r.elite[i].fitness >= r.ranked[j].fitness
  {
    var evaluated := Evaluate(pop, fit);
    var ranked := SortByFitness(evaluated);
    SortedPermutationLength(evaluated);
    PermutationKeepsGenomes(ranked, evaluated);
    PermutationKeepsFreshFitness(evaluated, ranked, fit);
    PrefixOutranksSuffix(ranked, EliteCount(|pop|));
    Ranking(ranked, ranked[..EliteCount(|pop|)])
  }

  /** In a sorted population every one of the first k is at least as fit as every later one. */
  lemma PrefixOutranksSuffix(s: seq<Individual>, k: nat)
    requires SortedByFitness(s) && k <= |s|
    ensures forall i, j :: 0 <= i < k <= j < |s| ==> s[..k][i].fitness >= s[j].fitness
  {
    forall i, j | 0 <= i < k <= j < |s|
      ensures s[..k][i].fitness >= s[j].fitness
    {
      assert s[..k][i] == s[i];
    }
  }

  /** Reordering individuals whose fitness is up to date keeps it up to date. */
  lemma PermutationKeepsFreshFitness(s: seq<Individual>, t: seq<Individual>, fit: Genome -> int)
    requires forall i :: 0 <= i < |s| ==> s[i].fitness == fit(s[i].genome)
    requires multiset(t) == multiset(s)
    ensures forall i :: 0 <= i < |t| ==> t[i].fitness == fit(t[i].genome)
  {
    forall i | 0 <= i < |t|
      ensures t[i].fitness == fit(t[i].genome)
    {
      assert t[i] in multiset(s);
    }
  }

  /**
    `nextGeneration` calls `bestIndividuals` on the population the rank-0
    step has just ranked. Whatever order its unstable sort then picks among
    equal-fitness individuals, every position, the elite pool's included,
    holds the fitness it held after the first call.
   */
  lemma RerankingKeepsFitnessProfile(pop: seq<Individual>, fit: Genome -> int, again: seq<Individual>)
    requires |pop| >= 10
    requires SortedByFitness(again)
    requires multiset(again) == multiset(Evaluate(BestIndividuals(pop, fit).ranked, fit))
    ensures |again| == |pop|
    ensures forall i :: 0 <= i < |again| ==> again[i].fitness == BestIndividuals(pop, fit).ranked[i].fitness
    ensures forall i :: 0 <= i < EliteCount(|pop|) ==> again[i].fitness == BestIndividuals(pop, fit).elite[i].fitness
  {
    var r := BestIndividuals(pop, fit);
    assert Evaluate(r.ranked, fit) == r.ranked;
    SortedPermutationsAgree(again, r.ranked);
  }

  /** The two elite indices a child slot breeds from. */
  datatype Parents = Parents(first: nat, second: nat)

  /** `nextGeneration`'s result together with the ranking its `bestIndividuals` call left behind. */
  datatype Offspring = Offspring(ranking: Ranking, next: seq<Individual>)

  /**
    A brand-new individual `blank` from the factory, given the weights and
    connections of `source`.
   */
  function Clone(source: Individual, blank: Individual): Individual {
    blank.(genome := source.genome)
  }

  /** Whether every pair of parent indices names an elite of a pool of e. */
  predicate ParentsWithin(parents: seq<Parents>, e: nat) {
    forall k :: 0 <= k < |parents| ==> parents[k].first < e && parents[k].second < e
  }

  /**
    Slot i of a new generation bred from the elite pool `best`: a copy of
    elite i for the first |best| / 2 slots, and after them a child of the
    two elites `parents[i - |best| / 2]` names.
   */
  function BreedSlot(
    best: seq<Individual>,
    spawn: nat -> Individual,
    mate: (Individual, Individual, Individual) -> Individual,
    parents: seq<Parents>,
    i: nat
  ): Individual
    requires i < |best| / 2 + |parents|
    requires ParentsWithin(parents, |best|)
  {
    if i < |best| / 2 then Clone(best[i], spawn(i))
    else
      var p := parents[i - |best| / 2];
      mate(best[p.first], best[p.second], spawn(i))
  }

  /** The n slots of a new generation bred from the elite pool `best`. */
  function Breed(
    best: seq<Individual>,
    n: nat,
    spawn: nat -> Individual,
    mate: (Individual, Individual, Individual) -> Individual,
    parents: seq<Parents>
  ): (next: seq<Individual>)
    requires |best| / 2 <= n
    requires |parents| == n - |best| / 2
    requires ParentsWithin(parents, |best|)
    ensures |next| == n
    ensures forall i :: 0 <= i < |best| / 2 ==>
              next[i].genome == best[i].genome && next[i].fitness == spawn(i).fitness
    ensures forall i :: |best| / 2 <= i < n ==>
              var p := parents[i - |best| / 2];
              next[i] == mate(best[p.first], best[p.second], spawn(i))
  {
    var next := seq(n, i requires 0 <= i < n => BreedSlot(best, spawn, mate, parents, i));
    assert forall i :: 0 <= i < n ==> next[i] == BreedSlot(best, spawn, mate, parents, i);
    next
  }

  /** x is the child `mate` makes from two members of `best` and the blank individual `blank`. */
  ghost predicate BredFrom(
    x: Individual,
    best: seq<Individual>,
    blank: Individual,
    mate: (Individual, Individual, Individual) -> Individual
  ) {
    exists a, b :: 0 <= a < |best| && 0 <= b < |best| && x == mate(best[a], best[b], blank)
  }

  /** Every bred child slot holds a child of two members of the elite pool. */
  lemma ChildrenOfElites(
    best: seq<Individual>,
    n: nat,
    spawn: nat -> Individual,
    mate: (Individual, Individual, Individual) -> Individual,
    parents: seq<Parents>
  )
    requires |best| / 2 <= n
    requires |parents| == n - |best| / 2
    requires ParentsWithin(parents, |best|)
    ensures var next := Breed(best, n, spawn, mate, parents);
      forall i :: |best| / 2 <= i < n ==> BredFrom(next[i], best, spawn(i), mate)
  {
    var next := Breed(best, n, spawn, mate, parents);
    forall i | |best| / 2 <= i < n
      ensures BredFrom(next[i], best, spawn(i), mate)
    {
      var p := parents[i - |best| / 2];
      assert next[i] == mate(best[p.first], best[p.second], spawn(i));
    }
  }

  /**
    `nextGeneration`. `spawn(i)` is the individual `createRandomIndividual`
    returns for slot i, `mate(p1, p2, child)` is the child after
    `p1->mate(*p2, child)`, and `parents[k]` are the elite indices drawn for
    the k-th child slot.
   */
  function NextGeneration(
    pop: seq<Individual>,
    fit: Genome -> int,
    spawn: nat -> Individual,
    mate: (Individual, Individual, Individual) -> Individual,
    parents: seq<Parents>
  ): (r: Offspring)
    requires |pop| >= 10
    requires |parents| == |pop| - EliteCount(|pop|) / 2
    requires ParentsWithin(parents, EliteCount(|pop|))
    ensures r.ranking == BestIndividuals(pop, fit)
    ensures r.next == Breed(r.ranking.elite, |pop|, spawn, mate, parents)
    ensures |r.next| == |pop|
    ensures forall i :: 0 <= i < |r.ranking.elite| / 2 ==>
              r.next[i].genome == r.ranking.elite[i].genome && r.next[i].fitness == spawn(i).fitness
    ensures forall i :: |r.ranking.elite| / 2 <= i < |r.next| ==>
              BredFrom(r.next[i], r.ranking.elite, spawn(i), mate)
  {
    var ranking := BestIndividuals(pop, fit);
    ChildrenOfElites(ranking.elite, |pop|, spawn, mate, parents);
    Offspring(ranking, Breed(ranking.elite, |pop|, spawn, mate, parents))
  }

  /**
    The elite copies of the next generation carry the best genomes of the
    current one: no genome outside the copied half of the elite pool is
    fitter than any of them.
   */
  lemma ElitesOutrankTheRest(
    pop: seq<Individual>,
    fit: Genome -> int,
    spawn: nat -> Individual,
    mate: (Individual, Individual, Individual) -> Individual,
    parents: seq<Parents>,
    i: nat,
    j: nat
  )
    requires |pop| >= 10
    requires |parents| == |pop| - EliteCount(|pop|) / 2
    requires ParentsWithin(parents, EliteCount(|pop|))
    requires i < EliteCount(|pop|) / 2 && i <= j < |pop|
    ensures var r := NextGeneration(pop, fit, spawn, mate, parents);
      fit(r.next[i].genome) >= fit(r.ranking.ranked[j].genome)
  {
    var r := NextGeneration(pop, fit, spawn, mate, parents);
    assert r.next[i].genome == r.ranking.ranked[i].genome;
  }

  // ----- choosing the parents -----

  /**
    The parent index as written: `(int)(randomNumber(0.0, 1.0) *
    (best.size() - 1))` for a draw r and a pool of e elites.
   */
  function DrawIndexAsWritten(r: real, e: nat): (k: nat)
    requires 0.0 <= r <= 1.0 && e >= 1
    ensures k < e
  {
    ScaleBelow(r, (e - 1) as real);
    (r * (e - 1) as real).Floor
  }

  /** Scaling by a draw in [0, 1] shrinks a non-negative amount, strictly when the draw is below 1. */
  lemma ScaleBelow(r: real, x: real)
    requires 0.0 <= r <= 1.0 && x >= 0.0
    ensures 0.0 <= r * x <= x
    ensures r < 1.0 && x > 0.0 ==> r * x < x
  {
    assert x - r * x == (1.0 - r) * x;
  }

  /**
    For every draw below 1 the formula as written lands below e - 1: the
    last elite is never a parent, so the draw is not uniform over the pool.
   */
  lemma AsWrittenSkipsLastElite(r: real, e: nat)
    requires 0.0 <= r < 1.0 && e >= 2
    ensures DrawIndexAsWritten(r, e) < e - 1
  {
    ScaleBelow(r, (e - 1) as real);
  }

  /** With four elites, as in a population of twenty, a draw of 0.99 still picks elite 2. */
  lemma AsWrittenFourElites()
    ensures DrawIndexAsWritten(0.99, 4) == 2
  {
    assert 0.99 * 3.0 == 2.97;
  }

  /**
    The parent index with every elite equally likely: the draw scaled by the
    pool size and floored, clamped to the last elite for a draw of exactly 1.
   */
  function DrawIndex(r: real, e: nat): (k: nat)
    requires 0.0 <= r <= 1.0 && e >= 1
    ensures k < e
  {
    ScaleBelow(r, e as real);
    var k := (r * e as real).Floor;
    if k >= e then e - 1 else k
  }

  /** Each elite k is drawn for exactly the draws in [k/e, (k+1)/e): intervals of equal width. */
  lemma DrawIndexUniform(r: real, e: nat, k: nat)
    requires 0.0 <= r < 1.0 && k < e
    ensures DrawIndex(r, e) == k <==> k as real / e as real <= r < (k + 1) as real / e as real
  {
    ScaleBelow(r, e as real);
    ScaleLe(k as real, r, e as real);
    ScaleLt((k + 1) as real, r, e as real);
  }

  lemma ScaleLe(a: real, b: real, e: real)
    requires e > 0.0
    ensures a <= b * e <==> a / e <= b
  {
    assert (a / e) * e == a;
    if a / e <= b {
      assert (a / e) * e <= b * e;
    }
    if a <= b * e {
      assert a / e <= (b * e) / e;
      assert (b * e) / e == b;
    }
  }

  lemma ScaleLt(a: real, b: real, e: real)
    requires e > 0.0
    ensures b * e < a <==> b < a / e
  {
    assert (a / e) * e == a;
    if b < a / e {
      assert b * e < (a / e) * e;
    }
    if b * e < a {
      assert (b * e) / e < a / e;
      assert (b * e) / e == b;
    }
  }

  /** One draw pair for a child slot, each in [0, 1]. */
  datatype Draw = Draw(first: real, second: real)

  predicate DrawsInRange(draws: seq<Draw>) {
    forall k :: 0 <= k < |draws| ==> 0.0 <= draws[k].first <= 1.0 && 0.0 <= draws[k].second <= 1.0
  }

  /**
    The parent indices of every child slot as `nextGeneration` draws them:
    each index from its own draw by the formula as written.
   */
  function DrawParents(draws: seq<Draw>, e: nat): (ps: seq<Parents>)
    requires DrawsInRange(draws) && e >= 1
    ensures |ps| == |draws|
    ensures ParentsWithin(ps, e)
    ensures forall k :: 0 <= k < |draws| ==>
              ps[k] == Parents(DrawIndexAsWritten(draws[k].first, e), DrawIndexAsWritten(draws[k].second, e))
  {
    seq(|draws|, k requires 0 <= k < |draws| =>
      Parents(DrawIndexAsWritten(draws[k].first, e), DrawIndexAsWritten(draws[k].second, e)))
  }

  /** The parent indices of every child slot drawn with the corrected, uniform index. */
  function DrawParentsUniform(draws: seq<Draw>, e: nat): (ps: seq<Parents>)
    requires DrawsInRange(draws) && e >= 1
    ensures |ps| == |draws|
    ensures ParentsWithin(ps, e)
    ensures forall k :: 0 <= k < |draws| ==>
              ps[k] == Parents(DrawIndex(draws[k].first, e), DrawIndex(draws[k].second, e))
  {
    seq(|draws|, k requires 0 <= k < |draws| =>
      Parents(DrawIndex(draws[k].first, e), DrawIndex(draws[k].second, e)))
  }
}
