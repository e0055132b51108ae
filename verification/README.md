# Genetic engine and miner validator, modelled in Dafny

This project models the core of a neuro-evolution trainer and of a small proof-of-work blockchain.

`Genetic` keeps a population of individuals. Each individual holds a genome: the weights and connection flags of a network. Each generation runs three steps:

- **Shard evaluation.** Every MPI rank recomputes the fitness of its shard of the population.
- **Ranking.** Rank 0 sorts the population by descending fitness and takes the best fifth as the elite pool.
- **Breeding.** Rank 0 builds the next generation. The first half of the elite pool is copied. Every other slot gets a child of two elites.

The engine can save its generation counter and genomes to a binary checkpoint and load them back.

The blockchain's `Miner` builds a string of `difficulty` characters `'0'`. Its `verify` accepts a hash exactly when the hash starts with that string.

Modules:

- `Wrappers`: the `Option` type.
- `Bytes`: bytes, 32-bit ints, 64-bit words and their little-endian images.
- `Partition`: the rank-to-index split of `updateAndEvolve`.
- `Population`: genomes and individuals.
- `Checkpoint`: the byte layout of `save` and `load`.
- `Selection`: sorting, `bestIndividuals`, `nextGeneration` and the parent draw.
- `Engine`: the `Genetic` object's state and operations.
- `Miner`: the constructor and `verify`.

Collaborators the core calls but does not define are parameters:

- `fit: Genome -> int` is `calculateFitness`.
- `spawn: nat -> Individual` is the i-th result of `createRandomIndividual`.
- `mate(p1, p2, child)` is `p1->mate(*p2, child)`.
- The file's content, or None when it cannot be opened, is `Option<seq<byte>>`.
- The parent draws of `randomNumber(0.0, 1.0)` are a sequence of reals in [0, 1].

## Model

| member | source | states |
|---|---|---|
| Bytes.LittleEndianRoundTrip | genetic.cc:120-121 | reading back the little-endian bytes of any number below 256^k gives the number back |
| Bytes.FromLittleEndianRoundTrip | genetic.cc:75-77 | every byte string is the little-endian image of the number it reads as, so no two byte strings read alike |
| Bytes.Int32RoundTrip | genetic.cc:75 | the generation counter reads back from its four two's-complement bytes, negative values included |
| Bytes.Int32BytesRoundTrip | genetic.cc:77 | any four bytes read as an `int` are written back as the same four bytes |
| Bytes.Word64RoundTrip | genetic.cc:88 | a weight's 64-bit pattern reads back bit-exactly from its eight bytes |
| Partition.ShardOf | genetic.cc:141-145 | every rank but the last gets exactly P / N indices; the last rank's range ends at P - 1; every range lies inside [0, P) |
| Partition.ShardMembership | genetic.cc:141-147 | index i is in rank r's shard exactly when r is the index's single owner, also when N > P |
| Partition.ExactlyOneOwner | genetic.cc:147-151 | the set of ranks that evaluate index i is a single rank, for every index of the population |
| Partition.ShardsAdjacent | genetic.cc:142-143 | rank r + 1's range starts right after rank r's ends: no gap and no overlap |
| Partition.TenOverThree | genetic.cc:141-146 | ten individuals over three ranks split as [0,2], [3,5], [6,9] |
| Population.PermutationKeepsGenomes | genetic.cc:221-224 | reordering a population keeps the multiset of its genomes |
| Checkpoint.HeaderReadsBack | genetic.cc:119-121 | a saved file's first four bytes read back as the generation; the next four read back as the population size when it fits an `int` |
| Checkpoint.CountRoundTrip | genetic.cc:119 | a population size that fits an `int` reads back from its four bytes |
| Checkpoint.DecodeBlocks | genetic.cc:80-100 | reading `count` blocks succeeds exactly when the input holds `count` blocks of 9 * W bytes; each genome read has W weights and W flags |
| Checkpoint.Decode | genetic.cc:71-100 | a file loads exactly when it has a header, a non-negative count and that many blocks; the result carries the stored generation and count; every genome has W weights and W flags |
| Checkpoint.DecodeMask | genetic.cc:92-97 | flag j reads as connected exactly when byte j is positive as a signed `char` |
| Checkpoint.MaskRoundTrip | genetic.cc:93-96 | flags written as the bytes 1 and 0 read back as the same flags |
| Checkpoint.WeightsRoundTrip | genetic.cc:88 | a sequence of weights reads back bit-exactly from its 8-byte images |
| Checkpoint.GenomeRoundTrip | genetic.cc:84-99 | one saved individual's block reads back as its weights and connection flags |
| Checkpoint.BlocksRoundTrip | genetic.cc:81-100 | the saved blocks read back as the same genomes, in order, whatever bytes follow them |
| Checkpoint.RoundTrip | genetic.cc:72-128 | loading what `save` wrote gives back the generation and every genome, provided all genomes have W weights and the count fits an `int` |
| Checkpoint.EncodeLength | genetic.cc:119-129 | a saved file is 8 + 9 * W * P bytes long |
| Checkpoint.EncodeHeader | genetic.cc:120-121 | the file opens with the generation's four bytes followed by the count's four bytes |
| Checkpoint.EncodeBlockAt | genetic.cc:122-129 | individual i's block occupies bytes 8 + 9W·i up to 8 + 9W·(i + 1) of the file |
| Checkpoint.EncodeLayout | genetic.cc:124-128 | weight j of individual i sits at offset 8 + 9W·i + 8j, and its flag is the byte at 8 + 9W·i + 8W + j |
| Selection.Insert | genetic.cc:221-224 | inserting into a sorted population keeps it sorted, adds exactly the new individual and puts it or the old head first |
| Selection.SortByFitness | genetic.cc:160-162 | the result is in non-increasing fitness order and is a permutation of the input |
| Selection.SortedPermutationsAgree | genetic.cc:221-224 | any two fitness orderings of the same population hold the same fitness at every position, whichever way the unstable sort breaks ties |
| Selection.Evaluate | genetic.cc:218-219 | every individual keeps its genome and its fitness becomes the fitness function of that genome |
| Selection.BestIndividuals | genetic.cc:216-231 | the ranked population is a permutation of the evaluated one, in non-increasing order with fresh fitness values; the elite pool is its first n / 5 members, at least 2 of them, and each elite is at least as fit as every individual after the pool |
| Selection.RerankingKeepsFitnessProfile | genetic.cc:186-188 | whatever tie order the second `bestIndividuals` call in `nextGeneration` sorts into, every position, the elite pool's included, holds the fitness it held after the first call |
| Selection.Breed | genetic.cc:187-211 | the new generation has n slots; slot i < \|E\| / 2 carries elite i's genome; each later slot is `mate`'s child of the two elites its parent pair names |
| Selection.ChildrenOfElites | genetic.cc:199-211 | every slot from \|E\| / 2 on holds a child of two members of the elite pool |
| Selection.NextGeneration | genetic.cc:185-214 | the next generation has as many individuals as the current one; the first \|E\| / 2 carry the best genomes; every other slot is a child of two elites |
| Selection.ElitesOutrankTheRest | genetic.cc:190-197 | the genome in elite slot i is at least as fit as every genome ranked at or after position i |
| Selection.DrawIndexAsWritten | genetic.cc:203-204 | the parent index as written always names an elite of the pool |
| Selection.AsWrittenSkipsLastElite | genetic.cc:203 | for every draw below 1 the index as written is below \|E\| - 1: the last elite is never picked |
| Selection.AsWrittenFourElites | genetic.cc:204 | with four elites, a draw of 0.99 picks elite 2 |
| Selection.DrawIndex | genetic.cc:203-206 | the corrected parent index always names an elite of the pool |
| Selection.DrawIndexUniform | genetic.cc:202-206 | the corrected index picks elite k for exactly the draws in [k/\|E\|, (k+1)/\|E\|), so every elite gets an interval of the same width |
| Selection.DrawParents | genetic.cc:200-206 | every child slot gets a parent pair, each index computed from its own draw by the formula as written and each naming an elite |
| Selection.DrawParentsUniform | genetic.cc:203-206 | every child slot gets a parent pair from the corrected index, each naming an elite |
| Engine.Create | genetic.cc:15-23 | a new engine is at generation 1 with the given size and file name and no individuals |
| Engine.Save | genetic.cc:111-132 | nothing is written exactly when the file name is empty; otherwise the file holds at least its 8-byte header |
| Engine.Rebuild | genetic.cc:81-99 | each loaded individual is the factory's individual for its slot, carrying the stored genome for that slot |
| Engine.Load | genetic.cc:60-109 | load succeeds exactly when a file name is set, the file opens and its content decodes; on failure the engine is unchanged; on success the size is the stored count, there are exactly that many individuals, and the generation and genomes are the stored ones |
| Engine.LoadWithoutFileName | genetic.cc:62-67 | with an empty file name, load reports false and leaves the engine unchanged |
| Engine.SaveThenLoad | genetic.cc:111-128 | loading the file `save` wrote restores the generation, the size and every genome |
| Engine.Initialize | genetic.cc:43-55 | after start-up the size matches the population; the engine is the loaded one when load succeeds, and otherwise holds `population` fresh factory individuals; a negative configured size is allowed when the checkpoint loads |
| Engine.EvaluateShard | genetic.cc:141-151 | a rank recomputes the fitness of exactly the individuals in its shard and leaves every other individual unchanged |
| Engine.UpdateAndEvolve | genetic.cc:157-175 | rank 0 ranks the population and replaces it with a bred generation of the same size, whose first \|E\| / 2 carry the best genomes and whose other slots are children of the ranked individuals at the as-written indices of their draws; the generation counter goes up by exactly one; the size and file name stay the same |
| Engine.BreedFromDraws | genetic.cc:199-211 | breeding with the drawn parent indices puts, in every child slot, the child of the two ranked individuals at `(int)(r * (\|E\| - 1))` for its two draws r |
| Miner.Zeros | Blockchain/blockchain/miner.h:56-58 | the target string has max(d, 0) characters, all of them '0' |
| Miner.NewMiner | Blockchain/blockchain/miner.h:53-59 | a new miner's target is max(difficulty, 0) characters '0', the same string for every way the loop can run |
| Miner.Prefix | blockchain/miner.h:114 | `substr(0, n)` is a prefix of the string, n characters long, or the whole string when it is shorter |
| Miner.Verify | Blockchain/blockchain/miner.h:117-120 | a hash verifies exactly when it is at least as long as the target and starts with it |
| Miner.VerifyIsZeroPrefix | blockchain/miner.h:112-115 | at difficulty d a hash verifies exactly when it has at least d characters and the first d are all '0' |
| Miner.ZeroDifficultyAcceptsAll | blockchain/miner.h:53-59 | at difficulty 0 or below every hash verifies, the empty one included |
| Miner.VerifyMonotone | Blockchain/blockchain/miner.h:119 | a hash that verifies at difficulty d verifies at every lower difficulty |
| Miner.VerifyIgnoresSuffix | blockchain/miner.h:114 | hashes that agree on their first d characters verify alike at difficulty d |
| Miner.ShortHashRejected | Blockchain/blockchain/miner.h:117-120 | a hash shorter than the difficulty never verifies |

## Left out

- MPI: `MPI_Comm_size`/`MPI_Comm_rank` become the parameters `numProcesses` and `rank`. `MPI_Barrier` and `MPI_Bcast` are process-level coordination and are not modelled. The broadcast also sends `Individual*` addresses as `MPI_INT`, which have no meaning in another process. Only rank 0's sequential step is modelled.
- `Miner::mine`, `verify(Block&)`, `calculateHash`, `calculateHashAux` and `sha256`: an OpenMP search with racy shared writes, plus foreign OpenSSL calls.
- Floating point: fitness is an `int` from the injected `fit`, and a weight is an opaque 64-bit pattern. `calculateFitness`, `mate` and `randomNumber` are external and become parameters.
- Selection.EliteCount: `(int)(individuals.size() * 0.2)` is modelled as n / 5. With the double nearest 0.2 the two agree for every population size the program can hold.
- Selection.DrawIndexAsWritten: the draw is an exact real, not a double.
- Selection.SortByFitness: `std::sort` is not stable, so individuals of equal fitness may end up in any order. The model fixes one admissible order, insertion order among equals. Only properties every admissible order shares are stated about it: sortedness, permutation, and the fitness at each position.
- Checkpoint.Decode: the source never checks read counts. On a truncated file, a short read keeps the bytes it got and every later read stores nothing. `weights` and `temp` start zero-filled, so the source resumes with zero weights, unconnected flags, and possibly a partly overwritten generation or size. A negative stored count makes `resize` throw. The model rejects both cases with None.
- Engine.Load: on a file that opens but is truncated, the model returns false and leaves the engine unchanged, while the source returns true with the zero-filled genomes described above. `Engine.Initialize` then starts from fresh factory individuals where the source resumes from them. On a negative stored count the source throws out of `load`; the model returns false.
- Checkpoint.DecodeMask: assumes `char` is signed, as on x86, so bytes 0x80 to 0xFF read as not connected. `save` only ever writes 0 and 1.
- Bytes: the host is taken to be little-endian with a 4-byte `int` and an 8-byte `double`.
- Engine.Initialize: requires a non-negative configured population unless the checkpoint loads, because the fallback `resize` of a negative `int` throws.
- Engine.UpdateAndEvolve: requires the generation counter to be below `INT_MAX`, because signed overflow of `generation++` is undefined. The old generation's individuals are leaked by the source; memory is not modelled.
- Engine.UpdateAndEvolve: the first `std::sort` (genetic.cc:160-162) orders by stale fitness values. `bestIndividuals` re-evaluates and re-sorts, so the fitness at each position does not depend on that order; which of several equally fit individuals lands where may.
- Destructor, console logging, `omp_get_wtime` and `simulation->init` in `initialize`: memory management, I/O and a foreign simulation.
- File opening and closing: the file's content, or its absence, is a parameter of `Load`. `Save` returns the bytes it would write instead of writing them.

## Findings

| source | as written | input that shows it | evidently intended | confidence | as-written member | corrected member |
|---|---|---|---|---|---|---|
| genetic.cc:203-204 | parent index `(int)(randomNumber(0.0, 1.0) * (best.size() - 1))` | four elites (a population of 20) and a draw of 0.99 gives index 2; no draw below 1 ever gives index 3, the last elite | every elite of the pool can be a parent, each with the same chance: `min(floor(r * \|E\|), \|E\| - 1)` | medium, not executed; `randomNumber` is not part of this model, and if it can return exactly 1.0 the last elite is reachable only by that one value | Selection.AsWrittenSkipsLastElite | Selection.DrawIndexUniform |

The engine step `Engine.UpdateAndEvolve` breeds with the index as written, through `Selection.DrawParents`, as the source does. The corrected index `Selection.DrawIndex` builds the parent pairs of `Selection.DrawParentsUniform`.
