/**
  The state of one `Genetic` engine and the operations on it: construction,
  checkpoint load and save, start-up, the fitness evaluation of one rank's
  shard, and the step by which rank 0 replaces the population with the next
  generation.
 */
module Engine {
  import opened Wrappers
  import opened Bytes
  import opened Population
  import opened Partition
  import opened Checkpoint
  import opened Selection

  /**
    The fields of `Genetic` the core reads and writes. `population` is the
    configured (or loaded) size; `individuals` is the live population.
   */
  datatype Genetic = Genetic(population: int32, fileName: string, generation: int32, individuals: seq<Individual>)

  /** The configured size matches the live population. */
  predicate Consistent(g: Genetic) {
    g.population >= 0 && g.population as int == |g.individuals|
  }

  /** `Genetic::Genetic`: the counter starts at generation 1 and no individual exists yet. */
  function Create(population: int32, fileName: string): (g: Genetic)
    ensures g.generation == 1 && g.individuals == []
    ensures g.population == population && g.fileName == fileName
  {
    Genetic(population, fileName, 1, [])
  }

  /**
    `Genetic::save`: the bytes written to `fileName`, None when no file
    name is configured and nothing is written.
   */
  function Save(g: Genetic): (file: Option<seq<byte>>)
    ensures file.None? <==> g.fileName == []
    ensures file.Some? ==> |file.value| >= 8
  {
    if g.fileName == [] then None
    else Some(Encode(Snapshot(g.generation, GenomesOf(g.individuals))))
  }

  /** Individuals built by the factory, then given the loaded weights and connections. */
  function Rebuild(gs: seq<Genome>, spawn: nat -> Individual): (s: seq<Individual>)
    ensures |s| == |gs|
    ensures GenomesOf(s) == gs
    ensures forall i :: 0 <= i < |s| ==> s[i].fitness == spawn(i).fitness
  {
    seq(|gs|, i requires 0 <= i < |gs| => spawn(i).(genome := gs[i]))
  }

  /**
    `Genetic::load`. `file` is the content of the file named `fileName`, or
    None when it cannot be opened; `w` is the number of weights of a
    factory genome; `spawn(i)` is the i-th individual the factory returns.
    The result's first component is what `load` returns; when it is false
    the engine is unchanged.
   */
  function Load(g: Genetic, file: Option<seq<byte>>, w: nat, spawn: nat -> Individual): (r: (bool, Genetic))
    ensures !r.0 ==> r.1 == g
    ensures r.0 <==> g.fileName != [] && file.Some? && Decode(file.value, w).Some?
    ensures r.0 ==> Consistent(r.1) && r.1.fileName == g.fileName
    ensures r.0 ==> Decode(file.value, w) == Some(Snapshot(r.1.generation, GenomesOf(r.1.individuals)))
    ensures r.0 ==> forall i :: 0 <= i < |r.1.individuals| ==> r.1.individuals[i].fitness == spawn(i).fitness
  {
    if g.fileName == [] then (false, g)
    else
      match file
      case None => (false, g)
      case Some(bytes) =>
        match Decode(bytes, w)
        case None => (false, g)
        case Some(snapshot) =>
          var individuals := Rebuild(snapshot.genomes, spawn);
          (true, g.(generation := snapshot.generation,
                    population := |snapshot.genomes| as int32,
                    individuals := individuals))
  }

  /**
    `Genetic::initialize`: resume from the checkpoint when it loads, or else
    create `population` individuals with the factory.
   */
  function Initialize(g: Genetic, file: Option<seq<byte>>, w: nat, spawn: nat -> Individual): (r: Genetic)
    requires g.population >= 0 || Load(g, file, w, spawn).0
    ensures Consistent(r)
    ensures r.fileName == g.fileName
    ensures Load(g, file, w, spawn).0 ==> r == Load(g, file, w, spawn).1
    ensures !Load(g, file, w, spawn).0 ==>
              && r.generation == g.generation && r.population == g.population
              && r.individuals == seq(g.population as int, i requires 0 <= i => spawn(i))
  {
    var loaded := Load(g, file, w, spawn);
    if loaded.0 then loaded.1
    else g.(individuals := seq(g.population as int, i requires 0 <= i => spawn(i)))
  }

  /**
    Saving an engine and loading the file into an engine with the same file
    name gives back its generation, its size and every genome.
   */
  lemma SaveThenLoad(g: Genetic, h: Genetic, w: nat, spawn: nat -> Individual)
    requires g.fileName != [] && h.fileName == g.fileName
    requires AllHaveSize(GenomesOf(g.individuals), w)
    requires |g.individuals| <= INT32_MAX
    ensures var r := Load(h, Save(g), w, spawn);
      && r.0
      && r.1.generation == g.generation
      && r.1.population as int == |g.individuals|
      && GenomesOf(r.1.individuals) == GenomesOf(g.individuals)
  {
    RoundTrip(Snapshot(g.generation, GenomesOf(g.individuals)), w);
  }

  /** Without a file name, `load` reports no prior state and leaves the engine as it was. */
  lemma LoadWithoutFileName(g: Genetic, file: Option<seq<byte>>, w: nat, spawn: nat -> Individual)
    requires g.fileName == []
    ensures Load(g, file, w, spawn) == (false, g)
  {
  }

  /** The fitness of x recomputed from its genome. */
  function Evaluated(x: Individual, fit: Genome -> int): Individual {
    Individual(x.genome, fit(x.genome))
  }

  /**
    The evaluation loop of `updateAndEvolve` on rank `rank` of
    `numProcesses`: the fitness of exactly the individuals in the rank's
    shard is recomputed; every other individual keeps its former value.
   */
  method EvaluateShard(
    individuals: seq<Individual>,
    fit: Genome -> int,
    population: nat,
    numProcesses: nat,
    rank: nat
  ) returns (out: seq<Individual>)
    requires numProcesses >= 1 && rank < numProcesses
    requires population <= |individuals|
    ensures |out| == |individuals|
    ensures GenomesOf(out) == GenomesOf(individuals)
    ensures forall i :: 0 <= i < |out| && ShardOf(population, numProcesses, rank).Contains(i) ==>
              out[i] == Evaluated(individuals[i], fit)
    ensures forall i :: 0 <= i < |out| && !ShardOf(population, numProcesses, rank).Contains(i) ==>
              out[i] == individuals[i]
  {
    var shard := ShardOf(population, numProcesses, rank);
    out := individuals;
    var i := shard.start;
    while i <= shard.end
      invariant shard.start <= i <= shard.end + 1
      invariant |out| == |individuals|
      invariant forall k :: 0 <= k < |out| && shard.start <= k < i ==> out[k] == Evaluated(individuals[k], fit)
      invariant forall k :: 0 <= k < |out| && !(shard.start <= k < i) ==> out[k] == individuals[k]
    {
      out := out[i := Evaluated(out[i], fit)];
      i := i + 1;
    }
  }

  /**
    `ranked` is a population as `bestIndividuals` leaves `pop`: the same
    genomes, each once, with fresh fitness values, in non-increasing order.
   */
  predicate RankingOf(ranked: seq<Individual>, pop: seq<Individual>, fit: Genome -> int) {
    && |ranked| == |pop|
    && SortedByFitness(ranked)
    && multiset(GenomesOf(ranked)) == multiset(GenomesOf(pop))
    && forall i :: 0 <= i < |ranked| ==> ranked[i].fitness == fit(ranked[i].genome)
  }

  /**
    `next` is a generation bred from the best e of `ranked`: its first e / 2
    slots are factory individuals carrying the genomes of the first e / 2
    ranked ones, and each later slot i is the child of the two ranked
    individuals the draws `draws[i - e / 2]` pick.
   */
  predicate BredByDraws(
    next: seq<Individual>,
    ranked: seq<Individual>,
    e: nat,
    spawn: nat -> Individual,
    mate: (Individual, Individual, Individual) -> Individual,
    draws: seq<Draw>
  ) {
    && 1 <= e <= |ranked| == |next|
    && |draws| == |next| - e / 2
    && DrawsInRange(draws)
    && (forall i :: 0 <= i < e / 2 ==>
          next[i].genome == ranked[i].genome && next[i].fitness == spawn(i).fitness)
    && (forall i :: e / 2 <= i < |next| ==>
          var d := draws[i - e / 2];
          next[i] == mate(ranked[DrawIndexAsWritten(d.first, e)], ranked[DrawIndexAsWritten(d.second, e)], spawn(i)))
  }

  /**
    Rank 0's part of `updateAndEvolve`, after its own shard is evaluated:
    sort by the cached fitness, run `bestIndividuals`, breed the next
    generation with parents drawn from `draws`, replace the population and
    advance the generation by one. `ranked` is the population as
    `bestIndividuals` left it, whose best fifth is the elite pool.
   */
  method UpdateAndEvolve(
    g: Genetic,
    numProcesses: nat,
    fit: Genome -> int,
    spawn: nat -> Individual,
    mate: (Individual, Individual, Individual) -> Individual,
    draws: seq<Draw>
  ) returns (ranked: seq<Individual>, next: Genetic)
    requires numProcesses >= 1
    requires Consistent(g) && |g.individuals| >= 10
    requires g.generation as int < INT32_MAX
    requires |draws| == |g.individuals| - EliteCount(|g.individuals|) / 2
    requires DrawsInRange(draws)
    ensures next.generation as int == g.generation as int + 1
    ensures next.population == g.population && next.fileName == g.fileName
    ensures Consistent(next)
    ensures RankingOf(ranked, g.individuals, fit)
    ensures BredByDraws(next.individuals, ranked, EliteCount(|g.individuals|), spawn, mate, draws)
  {
    var n := |g.individuals|;
    var e := EliteCount(n);
    var evaluated := EvaluateShard(g.individuals, fit, g.population as nat, numProcesses, 0);
    var sorted := SortByFitness(evaluated);
    SortedPermutationLength(evaluated);
    PermutationKeepsGenomes(sorted, evaluated);
    var first := BestIndividuals(sorted, fit);
    var offspring := NextGeneration(first.ranked, fit, spawn, mate, DrawParents(draws, e));
    ranked := offspring.ranking.ranked;
    BreedFromDraws(ranked, offspring.ranking.elite, e, spawn, mate, draws, offspring.next);
    next := g.(individuals := offspring.next, generation := g.generation + 1);
  }

  /**
    Breeding with parents drawn from `draws` from an elite pool `best`, of
    e individuals, at the front of `ranked` gives a generation `BredByDraws`
    describes.
   */
  lemma BreedFromDraws(
    ranked: seq<Individual>,
    best: seq<Individual>,
    e: nat,
    spawn: nat -> Individual,
    mate: (Individual, Individual, Individual) -> Individual,
    draws: seq<Draw>,
    next: seq<Individual>
  )
    requires e >= 1 && |best| == e <= |ranked| == |next| && best == ranked[..e]
    requires |draws| == |next| - e / 2
    requires DrawsInRange(draws)
    requires next == Breed(best, |next|, spawn, mate, DrawParents(draws, e))
    ensures BredByDraws(next, ranked, e, spawn, mate, draws)
  {
    forall i | e / 2 <= i < |next|
      ensures var d := draws[i - e / 2];
        next[i] == mate(ranked[DrawIndexAsWritten(d.first, e)], ranked[DrawIndexAsWritten(d.second, e)], spawn(i))
    {
      var d := draws[i - e / 2];
      var a, b := DrawIndexAsWritten(d.first, e), DrawIndexAsWritten(d.second, e);
      assert best[a] == ranked[a] && best[b] == ranked[b];
    }
    forall i | 0 <= i < e / 2
      ensures next[i].genome == ranked[i].genome
    {
      assert best[i] == ranked[i];
    }
  }
}
