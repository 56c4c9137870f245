# A verified model of the Quip family oracle and consensus primitives

This project models, in Dafny, the parts of the repository on which miners,
validators, and the conformance oracle must agree to the last bit, and proves
what they promise.

* **Ice structure.** Four-node tiles of a graph, the spine of each tile (a
  perfect matching of its nodes), the two sides of the spine graph, and the
  selection of tiles by augmenting paths. The files are `Zephyr`,
  `ZephyrEdges`, `IceTypes`, `IceTiles`, `IceSpines`, `IceZephyrTiles`,
  `IceSlots`, `IceStructure`, `IceSides`, `IceCandidates`, `IceTopology`,
  `AlternatingPaths`, `Matching`, and `IceSelect`. `Candidates` is specified
  exactly: which error for which topology, and otherwise the one structure the
  graph has. `Select` is too: the two orders decide the selection, because every
  attempt takes the first alternating path that the rows offer.
* **Three families on that selection.** Charged ice (`ChargedIce`,
  `ChargedIceFamily`): the expansion into fields, couplings, and an offset
  equals the sum of squared penalties on every state. Ice fields (`IceFields`,
  `IceFieldsFamily`): a refused request would fall short for every nonce.
  Twisted dimer (`GaugeLinks`, `WalkOrder`, `GaugeWalk`, `Twisted`, `Dimers`,
  `TwistedFamily`): the signed-graph balance test is exact, and the greedy
  pairing is within a factor two of any other. `IceFamily` holds the selection
  that all three start from, and `Substreams` the keystreams behind the shuffles
  and draws; each family is carried from the topology to an instance within the
  coefficient bound, and one nonce has one outcome (`OutcomeUnique`).
* **Proof sets.** The flip-invariant distance (`Scoring`), greedy dispersion
  with its factor-two guarantee (`Diversity`), and the choice of reads for a
  salt (`Target`). A salt that misses only by diversity or by a malformed read
  may hold another set that passes: `Finality` says when that cannot be,
  `MissesExactly` that it can be in all other cases, with pools built in
  `SpinRows`, `LabelledPools`, `Ladders`, `OpenMisses`, and `FlaggedPools` over
  the order-free sums of `PairSums`.
* **Canonical codecs.** The topology payload (`Varint`, `BlobLists`,
  `BlobItems`, `Blob`, `BlobCodec`) and its checksum (`Crc`, after section 8 of
  RFC 1952); the parameter codec with its two parser designs (`LittleEndian`,
  `ParamTypes`, `ParamsLockstep`, `ParamsParser`, `ParamsTable`,
  `ParamsOracle`); canonical instance bytes, their digest, and their differ
  (`Digest`, `Instance`, `Metadata`, `Validation`, `FirstDiff`).
* **Deterministic draws.** The scalar ChaCha8 stream (`ChaCha`, `Rng`, after
  sections 2.1 and 2.3 of RFC 8439 with 8 rounds, a 64-bit counter, and a zero
  nonce; `KnownWords` says what its word order is), rejection draws and the Fisher-Yates shuffle (`Uniform`, `Shuffle`),
  and the word-major draw over several lanes (`FastMod`, `Lanes`, `Draws`).
* **Index and energy.** The edge-list energy (`Energy`) and the compressed
  sparse rows with the flip identity (`Csr`).

`Common`, `Arith`, `Machine`, `Words`, `Sorting`, and `Connectivity` hold shared
values and facts, and `Limits` the documented limits and codes. Where the program changes state in place, the model does too:
the matcher, the payload reader, the field iterator, the buffered hasher, and
the generator are classes, and the distance table, the shuffle, the lane state,
and the checksum table are arrays. Each loop is proved against a specification
function or predicate, and the theorems are stated about those.

Notes on the reading of the sources:

* 32- and 64-bit wrap-around is explicit: word addition and rotation, the block
  counter, the 32-bit cast of the Hamming distance, the saturating energy sums,
  the checked sums of the payload reader. Lengths are those of a 64-bit target.
  The scalar generator advances its counter with a plain addition, which wraps
  in a release build and stops a debug build after 2^64 blocks; the model wraps.
* Words are integers, and exclusive or is defined on their binary digits.
* `first_diff` is documented to return nothing when the byte strings are equal.
  On bytes that do not have the shape of the format it reports a length
  difference even for equal sides; `FirstDiff.NoneExactly` gives the exact
  condition and `FirstDiff.EqualSidesCanDiffer` an instance.
* The Hamming distance is documented to be at most half the width. That holds,
  but its 32-bit cast breaks the triangle inequality exactly from width 2^33 on
  (`Scoring.TriangleExactly`), so the factor-two guarantee is stated below that
  width.
* `meets_target` judges the least reads below the ceiling only. A miss of the
  energy or the count gate excludes every set of reads; a miss of the diversity
  gate or a malformed least read does so exactly under the conditions
  `Finality.DiversityIsFinal` and `Finality.MalformedIsFinal`, which a caller can
  check from the target and the number of reads below the ceiling.
* A draw that waits for an accepted word has no bound of its own. The model asks
  for a keystream in which words below 2^31 never run out, and
  `Uniform.OneLowWordIsEnough` shows that one such word anywhere suffices.
* The lattice tests of the payload codec are parameters (`Blob.Lattice`), so the
  round trips hold for any tests; `Blob.ZephyrLattice` is the instance given by
  the coordinate formulas.

## Model

The first 48 rows are the main results, from the structure of a topology to the
differ; the other rows are what they rest on, component by component.

| member | source | states |
|---|---|---|
| `IceTopology.Candidates` | conformance/family_oracle/ice.py:238-289 | The exact verdict on every topology: which error, by the first failing check with its detail, or the tiles and spines of the graph. |
| `IceTopology.VerdictUnique` | conformance/family_oracle/ice.py:238-289 | Every topology has one verdict: two answers that meet the contract of Candidates are the same tiles and spines, or the same error with the same detail. |
| `IceTopology.AcceptedCarries` | conformance/family_oracle/ice.py:238-289 | An accepted topology has at least one tile, at most two slots at every node, spines that split into two sides, and tiles that share edges only through spines. |
| `IceTiles.AdjacencyTiles` | conformance/family_oracle/ice.py:217-235 | Below the cap the result lists every 4-clique of the graph exactly once, strictly ascending; the error is raised only when the graph has more than a quarter as many 4-cliques as edges. |
| `IceSpines.EarlyStopIsSound` | conformance/family_oracle/ice.py:217-235 | More 4-cliques than a quarter of the edges force a tile whose shared edges fit no perfect matching: the early stop rejects no graph the spine step would accept. |
| `IceSides.TwoColour` | conformance/family_oracle/ice.py:347-368 | The colouring puts every pair on opposite sides and the smallest spine edge of each component on the left, and it is the only one that does; the error occurs only when no two-colouring exists. |
| `Matching.Matcher.Run` | conformance/family_oracle/ice.py:412-421 | For any order of the left vertices: the final matching is a maximum matching; a left vertex ends matched exactly when the vertices up to it have a larger matching than the vertices before it; and it is the matching that the attempts in that order lead to. |
| `AlternatingPaths.FirstPathIsLeast` | conformance/family_oracle/ice.py:402-410 | Among all simple alternating paths to a free vertex, the one taken is the first in the order of the rows. |
| `IceSelect.Select` | conformance/family_oracle/ice.py:374-423 | For all orders: an ascending list of all free tiles plus spine tiles that use each spine edge at most once; no set of spine tiles with that property is larger; and it is the selection those two orders lead to, rows by the right order and attempts by the left. |
| `IceSelect.SelectionUnique` | conformance/family_oracle/ice.py:374-423 | The structure, the sides, and the two orders determine the selection: two lists that meet the contract of Select are equal. |
| `ChargedIceFamily.Generate` | conformance/family_oracle/charge.py:99-195 | End to end: every topology that the structure checks accept gives the one instance over the selection of the shuffles, with the drawn gauges, charges, and signs; its encoded and direct energies agree on every state, its coefficients stay within 1000, and its offset within 500 for each node; an error is exactly the structure error. |
| `ChargedIceFamily.OutcomeUnique` | conformance/family_oracle/charge.py:99-195 | A topology, parameters, and the streams of one nonce have one outcome: the same instance or the same error. |
| `ChargedIce.EnergyIdentity` | conformance/family_oracle/charge.py:146-238 | For every built instance and every state of signs the encoded energy equals the direct energy. |
| `IceFieldsFamily.Generate` | conformance/family_oracle/fields.py:73-154 | End to end: a rejected topology gives its structure error; an accepted one gives the one instance over the selection of the shuffles, with the drawn glass, gauge, and signed fields, within 1000, or no instance exactly when fewer nodes lie in two selected tiles than are asked for. |
| `IceFieldsFamily.OutcomeUnique` | conformance/family_oracle/fields.py:73-154 | A topology, parameters, and the streams of one nonce have one outcome: the same instance, a shortfall, or the same error. |
| `IceFieldsFamily.RefusedNeverDraws` | conformance/family_oracle/fields.py:56-137 | A loop-free request refused with code 12 gives an instance for no nonce: no stream of draws and shuffles leads to one. |
| `TwistedFamily.Generate` | conformance/family_oracle/twisted.py:154-248 | End to end: a rejected topology gives its structure error; an accepted one gives the one instance over the selection of the shuffles, with the pairs that the shuffled walk takes, within 1000, or a shortfall exactly when the walk takes too few, with its bound; nothing else can fail. |
| `TwistedFamily.OutcomeUnique` | conformance/family_oracle/twisted.py:154-248 | A topology, parameters, and the streams of one nonce have one outcome: the same instance, a shortfall, or the same error. |
| `TwistedFamily.Describe` | conformance/family_oracle/twisted.py:98-151 | The gauge report on a selection from an accepted structure never fails, and keeps its balance verdict and rank bound. |
| `Twisted.GaugeObstructions` | conformance/family_oracle/twisted.py:98-151 | The one answer for an input: components is the true component count of the tiles sharing nodes; the cycle rank counts every link; the frustrated cycles are those of the breadth-first potentials and never exceed the rank; gauge-equivalent is reported exactly when one sign per tile and one per node multiply to every local gauge; the overflow error is exact and the other names the lowest crowded node. |
| `Twisted.AnswerUnique` | conformance/family_oracle/twisted.py:98-151 | An input has one answer: the same error, or a report with the same four numbers. |
| `Dimers.PairStep` | conformance/family_oracle/twisted.py:214-230 | The pairs are those the walk through the shuffled free edges takes; code 0 exactly when they are as many as wanted, and then no other coupling changes; code 14 means that no node-disjoint set of non-tile edges has more than twice one less than the wanted number. |
| `Diversity.SelectDiverse` | crates/quip-protocol/src/diversity.rs:45-91 | Nothing, everything, the first solution, or the greedy farthest-point order of distinct indices, whose smallest distance is at least half that of any other set of the same size for widths below 2^33. |
| `Scoring.TriangleExactly` | crates/quip-protocol/src/scoring.rs:152-170 | The triangle inequality holds for all vectors of a width exactly when the width is below 2^33. |
| `Target.MeetsTarget` | crates/quip-protocol/src/target.rs:126-142 | The one answer for a pool: malformed exactly when the least reads are misshapen, an energy miss exactly when no read is below the ceiling or none may be sent, a count miss exactly when the well-shaped least reads are fewer than needed, a diversity miss exactly when they pass all gates but that one, and otherwise their statistics; an energy or a count miss means that no set of distinct reads passes; the best energy is the minimum over all reads below the ceiling. |
| `Target.AnswerUnique` | crates/quip-protocol/src/target.rs:126-142 | A pool has one answer: two answers that meet the contract of MeetsTarget are the same miss, or the same reads with the same statistics. |
| `MissesExactly.DiversityFinalExactly` | crates/quip-protocol/src/target.rs:126-142 | For every target and every number of reads below the ceiling: a diversity miss excludes every set of distinct reads, on every pool with that number, exactly under the condition of Finality.DiversityMissIsFinal. |
| `MissesExactly.MalformedFinalExactly` | crates/quip-protocol/src/target.rs:126-142 | For every target and every number of reads below the ceiling: a malformed least read excludes every set of distinct reads, on every pool with that number, exactly under the condition of Finality.MalformedMissIsFinal. |
| `Blob.DecodeInvertsEncode` | crates/ising-generators/src/blob.rs:360-506 | Every body that encodes decodes back to itself, for both kinds, all 32-bit ids, and all varint lengths. |
| `Blob.EncodeInvertsDecode` | crates/ising-generators/src/blob.rs:360-506 | Every accepted payload is exactly what encoding its body gives. |
| `BlobCodec.DecodePayload` | crates/ising-generators/src/blob.rs:484-506 | The body, or the first fault in order, for every byte string. |
| `Crc.Crc32` | crates/ising-generators/src/blob.rs:141-149 | The table-driven checksum of every byte string is the bit-serial CRC-32 of section 8 of RFC 1952. |
| `ParamsTable.ParsersAgree` | conformance/family_oracle/params.py:145-173 | On every byte string the tag-table parser and the lockstep parser accept the same layouts and find the same raw values. |
| `ParamsOracle.DecodeParams` | conformance/family_oracle/params.py:176-188 | The same verdict (7, 9, or accept) and the same values as the lockstep parser with its bounds check, on every byte string. |
| `ParamsOracle.EncodeInvertsDecode` | conformance/family_oracle/params.py:127-188 | Accepted bytes are exactly what encoding their values gives. |
| `ParamsOracle.DecodeInvertsEncode` | conformance/family_oracle/params.py:127-188 | Values within bounds whose encoding is not too long decode from it unchanged. |
| `Draws.DrawLanes` | crates/quip-protocol/src/chacha8.rs:206-226 | out[i] is the table entry at keystream word first + i modulo the table size, for every lane count, alignment, and length. |
| `FastMod.RemIsModulo` | crates/quip-protocol/src/chacha8.rs:127-148 | The multiply-high remainder equals the remainder for every 32-bit word and every divisor from 1, including the wrapped magic of 1 and powers of two. |
| `Uniform.Draw` | crates/ising-generators/src/rng.rs:128-138 | Reads exactly up to the first word below the limit and returns its remainder. |
| `Uniform.ResiduesAreEquallyLikely` | crates/ising-generators/src/rng.rs:128-138 | Every residue is given by the same number of accepted words, the quotient of 2^32 by the bound. |
| `Shuffle.DrawsAreDetermined` | crates/ising-generators/src/rng.rs:140-159 | Different draw vectors order distinct items differently. |
| `Shuffle.EveryOrderIsReached` | crates/ising-generators/src/rng.rs:140-159 | Every order of the items comes from some draw vector; with Shuffle.ShufflePermutes and Shuffle.DrawsAreDetermined, draws and orders correspond one to one. |
| `Csr.FlipIdentity` | crates/quip-solver-core/src/csr.rs:34-43 | Flipping spin i changes the edge-list energy by minus twice its sign times the field plus the weighted signs of its row, with self-loops, out-of-range ends, parallel edges, and missing couplings. |
| `Energy.EnergyFromMilli` | crates/quip-protocol/src/scoring.rs:119-141 | The 128-bit saturating accumulation is exact for 64-bit lengths, and the result is the exact sum clamped to 64 bits, with fields and edges without a spin or coupling skipped. |
| `Instance.EncodingIsInjective` | crates/ising-generators/src/instance.rs:233-257 | Two sets of parts with matching lengths have equal canonical bytes exactly when they agree, an absent nonce counting as 32 zero bytes. |
| `Validation.AcceptedExactly` | crates/ising-generators/src/instance.rs:186-321 | An instance is accepted exactly within bounds, with matching lengths, strictly sorted upward edges, the sent digest, and a metadata layout; the length overflow cannot occur. |
| `FirstDiff.FindsFirst` | crates/quip-solver-conformance/src/families.rs:544-549 | For arbitrary bytes: finding nothing means equality; a reported difference stands right after bytes that agree, in the component and at the index it names, and shows what differs. |
| `FirstDiff.NoneExactlyWhenAgreeing` | crates/quip-solver-conformance/src/families.rs:544-549 | On the canonical bytes of two accepted instances nothing is found exactly when the parts agree. |
| `Zephyr.CoordinatesOfLinearId` | conformance/family_oracle/ice.py:46-58 | Taking the coordinates of the linear id of any lattice coordinate gives that coordinate back. |
| `Zephyr.LinearIdOfCoordinates` | conformance/family_oracle/ice.py:46-58 | Whenever an id has coordinates they lie in the lattice, and their linear id is the id: the two formulas are inverse both ways. |
| `Zephyr.LinearIdInjective` | conformance/family_oracle/ice.py:46-47 | Different lattice coordinates have different ids. |
| `Zephyr.OnePartner` | conformance/family_oracle/ice.py:84-111 | An end of an odd coupler and an internal neighbour of both its ends leave one odd partner only: the fact behind "an internal coupler lies in at most one tile". |
| `Zephyr.TwoPartners` | conformance/family_oracle/ice.py:77-83 | A coordinate has at most two odd partners. |
| `Zephyr.SmallestLattice` | docs/topology-format.md:75-77 | The documented example: the couplers of the lattice with size 1 and tile size 1. |
| `IceTypes.OrdersAreLexicographic` | conformance/family_oracle/ice.py:278-283 | Edges and tiles are ordered as the tuples of their nodes. |
| `IceTypes.EdgesArePairs` | conformance/family_oracle/ice.py:164-165 | The edges of a tile are all pairs of its nodes, in the order of combinations. |
| `IceTypes.MatchingsAreSplits` | conformance/family_oracle/ice.py:168-170 | The matchings of a tile are all splits of its nodes into two edges, in the order they are tried. |
| `ZephyrEdges.AddedExactly` | conformance/family_oracle/ice.py:61-112 | The pairs added by the three families of loops are exactly the ascending pairs of ids whose coordinates are coupled; no node is coupled to itself. |
| `IceTiles.BuildNeighbourSets` | conformance/family_oracle/ice.py:273-276 | Entry v of the list holds exactly the nodes joined to v by an edge. |
| `IceSpines.CountEdges` | conformance/family_oracle/ice.py:174-177 | The dictionary counts, for every edge, the listed tiles that contain it. |
| `IceSpines.CountTellsShared` | conformance/family_oracle/ice.py:180 | A count of two or more says exactly that two different listed tiles contain the edge. |
| `IceSpines.HeldEdges` | conformance/family_oracle/ice.py:180 | The held edges of a tile are exactly its edges shared with another tile. |
| `IceSpines.FirstCover` | conformance/family_oracle/ice.py:184-189 | A perfect matching that contains every held edge is found, or none of the three does. |
| `IceSpines.AdjacencySpines` | conformance/family_oracle/ice.py:173-190 | A tile is free exactly when it shares no edge; otherwise its spine is a perfect matching holding all its shared edges; the error means some tile has no such matching. |
| `IceSpines.SpineRuleUnique` | conformance/family_oracle/ice.py:184-187 | The spine rule determines the spine of every tile, so the search order of the matchings cannot matter. |
| `IceSpines.PrivateEdgesAddUp` | conformance/family_oracle/ice.py:220-224 | Where every tile is covered by a matching, the tiles own pairwise different sets of four edges, which all lie in the graph. |
| `IceZephyrTiles.TilesOn` | conformance/family_oracle/ice.py:206-213 | For one vertical odd coupler, a tile is stored for every crossing horizontal one, and everything stored is such a tile with its spine. |
| `IceZephyrTiles.ZephyrTiles` | conformance/family_oracle/ice.py:193-214 | The dictionary holds exactly the tiles of crossing pairs of odd couplers, each with its sorted pair as spine. |
| `IceZephyrTiles.PairFormsTile` | conformance/family_oracle/ice.py:210-213 | The four nodes of a crossing pair form a clique, and the sorted pair is one of its perfect matchings. |
| `IceZephyrTiles.PairUnique` | conformance/family_oracle/ice.py:213 | A tile comes from one crossing pair only, so storing by tile overwrites nothing. |
| `IceSlots.SlotCounts` | conformance/family_oracle/ice.py:292-308 | The slots of a node are its distinct spine edges plus the free tiles it belongs to. |
| `IceSlots.MembershipBound` | conformance/family_oracle/ice.py:292-308 | A node lies in no more tiles of any selection than it has slots. |
| `IceSlots.SelectionEdgeDisjoint` | conformance/family_oracle/ice.py:173-190 | No two tiles of a selection share an edge of the graph. |
| `IceStructure.AdjacencyEdgeRule` | conformance/family_oracle/ice.py:179-190 | In adjacency mode an edge common to two tiles lies on both their spines. |
| `IceStructure.NoConflictInGraph` | conformance/family_oracle/ice.py:173-190 | Spines found by the rule mean the graph itself has no spine conflict. |
| `IceStructure.ConflictInGraph` | conformance/family_oracle/ice.py:184-189 | A conflict met while walking the list is a conflict of the graph. |
| `IceStructure.InternalCouplerOnce` | conformance/family_oracle/ice.py:193-214 | Two crossing pairs with a common internal coupler are the same pair. |
| `IceStructure.ZephyrEdgeRule` | conformance/family_oracle/ice.py:193-214 | In Zephyr mode too, an edge common to two tiles lies on both their spines. |
| `IceStructure.ZephyrSplits` | conformance/family_oracle/ice.py:335-338 | The spines of lattice tiles always split by orientation, so the not-bipartite error cannot occur in Zephyr mode. |
| `IceStructure.ZephyrSlots` | conformance/family_oracle/ice.py:311-317 | On a lattice graph no node has more than two slots, so the membership error cannot occur in Zephyr mode. |
| `IceTopology.MaxDegree` | conformance/family_oracle/ice.py:135-140 | The result is the largest number of edge ends at a node, a loop counting twice, and 0 when there is none. |
| `IceTopology.CollectEdges` | conformance/family_oracle/ice.py:255-260 | The undirected edges are collected exactly when no edge is a loop or repeats an earlier one. |
| `IceTopology.NodeCoordinates` | conformance/family_oracle/ice.py:263-268 | All coordinates, or the error naming the first node outside the lattice. |
| `IceTopology.CouplersAreLinks` | conformance/family_oracle/ice.py:269-272 | An edge is a coupler exactly when the coordinates of its ends are linked, in either direction. |
| `IceTopology.CheckCouplers` | conformance/family_oracle/ice.py:269-272 | No error exactly when every edge is a coupler, else the first that is not. |
| `IceTopology.CheckSlots` | conformance/family_oracle/ice.py:311-317 | No error when every node has at most two slots, else the first node with more. |
| `IceTopology.AdjacencyStructure` | conformance/family_oracle/ice.py:283-284 | Succeeds exactly when the graph has no spine conflict, and then lists all 4-cliques with the spines the rule gives. |
| `IceTopology.ZephyrStructure` | conformance/family_oracle/ice.py:279-281 | Lists exactly the tiles of crossing pairs, ascending, with their spines. |
| `IceTopology.DescribedOnce` | conformance/family_oracle/ice.py:277-284 | A graph determines its tiles and spines: any two structures that fit the description are equal. |
| `IceTopology.CheckBasics` | conformance/family_oracle/ice.py:249-260 | The shape, degree, and duplicate checks in order: the first that fails decides, for every topology. |
| `IceTopology.FinishChecks` | conformance/family_oracle/ice.py:285-289 | The late checks in order: no tile, a crowded node (the first one), no two sides; none fails exactly when the structure is accepted. |
| `IceTopology.ZephyrPassesLate` | conformance/family_oracle/ice.py:285-288 | A lattice graph with a tile passes the late checks. |
| `IceSides.BuildNeighbours` | conformance/family_oracle/ice.py:348-351 | The neighbours of a spine edge are exactly the edges it is paired with. |
| `IceSides.ScanRow` | conformance/family_oracle/ice.py:362-367 | Either every neighbour is coloured opposite and the walk goes on, or no proper two-colouring of the whole graph exists. |
| `IceSides.ColourComponent` | conformance/family_oracle/ice.py:353-367 | Colours the component of a root with the root on the left, every colour forced; the error proves that no proper colouring exists. |
| `IceCandidates.Sides` | conformance/family_oracle/ice.py:323-344 | Succeeds exactly when the spines can be split, and then returns the pinned split: left and right ascending, one edge of every spine on each side, by orientation or by the canonical colouring. |
| `IceCandidates.ZephyrSides` | conformance/family_oracle/ice.py:335-338 | The split by orientation, or the error exactly when some spine has both edges on one side. |
| `IceCandidates.AdjacencySides` | conformance/family_oracle/ice.py:339-344 | The split by the canonical colouring, or the error exactly when none exists. |
| `IceCandidates.SidesUnique` | conformance/family_oracle/ice.py:323-344 | The spines have one split: two pinned splits have the same left and right lists. |
| `Matching.Matcher.Attempt` | conformance/family_oracle/ice.py:402-410 | Success takes the first path: at every vertex the rank-least neighbour from which an alternating path outside the stack reaches a free vertex, every owner moving one step along it; failure changes nothing, reaches no free vertex, and leaves the visited vertices closed. Terminates because visited grows. |
| `Matching.CertifiedIsMaximum` | conformance/family_oracle/ice.py:402-421 | A closed set of exhausted vertices bounds every matching of the vertices tried by the size of the one found. |
| `AlternatingPaths.SpentNeverReaches` | conformance/family_oracle/ice.py:402-410 | What an attempt has visited and left reaches no free vertex around its stack, so skipping it loses nothing. |
| `AlternatingPaths.RunsUnique` | conformance/family_oracle/ice.py:402-421 | The rows and the order of the attempts determine the matching. |
| `Matching.SuccessGains` | conformance/family_oracle/ice.py:417-418 | A successful attempt makes the matching larger than any matching of the vertices before it. |
| `Matching.FailureGainsNothing` | conformance/family_oracle/ice.py:417-418 | After a failed attempt no matching with its vertex is larger than what the vertices before it reach. |
| `IceSelect.BuildTable` | conformance/family_oracle/ice.py:384-394 | The table maps every pair of side positions of a spine to its tile and nothing else; the free tiles are listed apart. |
| `IceSelect.BuildRows` | conformance/family_oracle/ice.py:395-399 | Each row holds exactly the right partners of a left vertex, ascending by rank. |
| `IceSelect.Collect` | conformance/family_oracle/ice.py:422 | Free tiles and the tiles of matched vertices, nothing else. |
| `IceSelect.SharedVertex` | conformance/family_oracle/ice.py:393-394 | Two spine tiles share a spine edge exactly when their table positions share a coordinate. |
| `IceSelect.OutcomeSelects` | conformance/family_oracle/ice.py:422-423 | What a matching selects uses every spine edge at most once and contains every free tile. |
| `IceSelect.OutcomeLargest` | conformance/family_oracle/ice.py:422-423 | What a maximum matching selects is at least as large as every compatible set of spine tiles. |
| `IceSelect.RowsAreOrdered` | conformance/family_oracle/ice.py:395-399 | Each row holds the right ends of the spines at its left vertex, one before another exactly as in the right order. |
| `IceFamily.MembershipsAtMostTwo` | conformance/family_oracle/ice.py:311-317 | A selection from an accepted structure puts every node in at most two tiles. |
| `IceFamily.SelectTiles` | conformance/family_oracle/charge.py:115-129 | Recomputing the sides of an accepted structure cannot fail, and the selection is a largest one for all shuffles. |
| `IceFamily.SelectOver` | conformance/family_oracle/charge.py:114-145 | The sorted edges of the graph and a largest selection over them, as all families on ice tiles start. |
| `IceFamily.SelectionOfUnique` | conformance/family_oracle/ice.py:238-423 | A topology and two shuffles have one edge list and one selection. |
| `IceFamily.RejectedHasNoSelection` | conformance/family_oracle/ice.py:238-289 | A rejected topology has no selection. |
| `IceFamily.Prepare` | conformance/family_oracle/charge.py:114-129 | The structure error, or the sorted edges and the selection that the shuffles lead to. |
| `IceFamily.IdentityShuffles` | conformance/family_oracle/chacha8.py:88-92 | Shuffles that meet what is asked of them exist: leaving every list as it is. |
| `Substreams.DrawIsWord` | conformance/family_oracle/chacha8.py:77-85 | A draw below two or 256 takes exactly the next word and its low digits. |
| `Substreams.OrderIsPermutation` | conformance/family_oracle/chacha8.py:88-92 | Shuffling the positions of a list by a keystream gives a permutation of them. |
| `Substreams.ShuffleMovesPositions` | conformance/family_oracle/chacha8.py:88-92 | Shuffling a list places its elements as shuffling their positions does. |
| `Substreams.KeystreamsSupply` | conformance/family_oracle/charge.py:122-169 | The keystreams of one nonce supply what each family asks for: permutations of every length and enough signs. |
| `ChargedIce.EncodedEnergy` | conformance/family_oracle/charge.py:198-202 | The energy computed from fields, couplings, and offset. |
| `ChargedIce.DirectEnergy` | conformance/family_oracle/charge.py:222-238 | Never raises the odd-penalty error, for every instance shape and every state of signs, and returns the sum of halved squared penalties and signed background terms. |
| `ChargedIce.SquareIsEven` | conformance/family_oracle/charge.py:231-234 | The scaled squared difference between a tile charge and its prescribed value is even. |
| `ChargedIce.TilesExpand` | conformance/family_oracle/charge.py:154-162 | After any number of edge-disjoint tiles, fields, strong couplings, and offset add up to exactly the penalties of those tiles, for every state of signs. |
| `ChargedIce.CouplingsSplit` | conformance/family_oracle/charge.py:164-173 | The coupling energy is that of the strong couplings plus the background times the signed background sum. |
| `ChargedIce.BuildTiles` | conformance/family_oracle/charge.py:151-162 | Fails exactly when some tile pair is not a topology edge; otherwise accumulates the fields, strong couplings, and offset of all tiles. |
| `ChargedIce.BuildCouplings` | conformance/family_oracle/charge.py:164-173 | Every edge gets its strong coupling or a signed background coupling, with one sign drawn per background edge in edge order. |
| `ChargedIce.Build` | conformance/family_oracle/charge.py:146-195 | The whole expansion of tiles, gauges, charges, and signs, or a refusal exactly when a tile pair is not an edge. |
| `ChargedIceFamily.FieldBound` | conformance/family_oracle/charge.py:160-161 | The field of a node is at most twice the scale for each tile at it. |
| `ChargedIceFamily.StrongBound` | conformance/family_oracle/charge.py:156-159 | A strong coupling is at most the scale. |
| `ChargedIceFamily.CoefficientsWithinBound` | conformance/family_oracle/charge.py:44 | Under the schema bounds, with every node in at most two tiles, every field and coupling is at most 1000 in magnitude. |
| `ChargedIceFamily.Assemble` | conformance/family_oracle/charge.py:131-195 | An instance drawn over a selection keeps the energy identity for all states and the coefficient bound. |
| `ChargedIceFamily.OffsetWithinBound` | conformance/family_oracle/charge.py:162 | There are at most half as many tiles as nodes, so the offset is at most 500 for each node. |
| `ChargedIce.ChargeOf` | conformance/family_oracle/charge.py:131-139 | No charge exactly when the chance reaches the charged count; otherwise positive exactly when the sign draw is 0. |
| `ChargedIce.SignOf` | conformance/family_oracle/charge.py:141-144 | A sign is 1 exactly when the draw is 0. |
| `IceFields.CountTwos` | conformance/family_oracle/fields.py:67 | Counts the nodes with exactly two slots. |
| `IceFields.SizeCode` | conformance/family_oracle/ice.py:147-161 | Code 13 exactly when the node count, the edge count, or a degree exceeds its limit. |
| `IceFields.AdmissionCode` | conformance/family_oracle/fields.py:56-70 | The exact code: 12 for a self-loop, a structure error other than the degree, or a field count above the two-slot nodes; otherwise the size code. |
| `IceFields.SeenCounts` | conformance/family_oracle/fields.py:123-126 | Counts for every node the selected tiles that contain it. |
| `IceFields.Eligible` | conformance/family_oracle/fields.py:123-127 | The nodes in exactly two selected tiles, ascending. |
| `IceFields.KeepFirst` | conformance/family_oracle/fields.py:131-132 | The kept nodes are exactly the first entries of the shuffled list, ascending. |
| `IceFields.KeptUnique` | conformance/family_oracle/fields.py:131-132 | The order determines the kept nodes. |
| `IceFields.SignFields` | conformance/family_oracle/fields.py:133-137 | Kept nodes get signed fields in ascending order, one draw each; all others are zero. |
| `IceFields.Fields` | conformance/family_oracle/fields.py:123-137 | Code 14 exactly when the eligible nodes are fewer than the field count; otherwise the first entries of the shuffled eligible list carry the fields. |
| `IceFields.EligibleHaveTwoSlots` | conformance/family_oracle/fields.py:123-127 | There are never more eligible nodes than two-slot nodes. |
| `IceFields.RefusalIsFinal` | conformance/family_oracle/fields.py:65-69 | A loop-free request whose structure is accepted but which is refused with code 12 would fall short with every selection, hence give code 14 for every nonce. |
| `IceFieldsFamily.ApplyGauge` | conformance/family_oracle/fields.py:119-121 | Every coupling is multiplied by the signs of its two ends. |
| `IceFieldsFamily.GaugeIsHidden` | conformance/family_oracle/fields.py:112-121 | The gauge moves the states and keeps the energies: the gauged couplings on a state give what the plain ones give on the state turned by the gauge. |
| `IceFieldsFamily.PairsOnGraph` | conformance/family_oracle/fields.py:108-111 | No pair of a selected tile is missing from the topology, so the check for one never fails. |
| `IceFieldsFamily.DrawFields` | conformance/family_oracle/fields.py:104-137 | Over a selection: a gauged glass with fields on the kept eligible nodes, or a shortfall exactly when they are too few. |
| `IceFieldsFamily.InstanceWithinBound` | conformance/family_oracle/fields.py:112-137 | Every coupling and every field of a drawn instance is at most 1000 in magnitude. |
| `GaugeLinks.BuildMembership` | conformance/family_oracle/twisted.py:111-118 | Succeeds exactly on well-formed input and lists for every node its memberships in order. |
| `GaugeLinks.BuildLinks` | conformance/family_oracle/twisted.py:119-130 | Exactly one link for each node in exactly two tiles, in node order; the error names the lowest node in more than two. |
| `GaugeLinks.EntriesUnique` | conformance/family_oracle/twisted.py:111-118 | The input determines the memberships and their order. |
| `GaugeLinks.CommonGaugeIsConsistent` | conformance/family_oracle/twisted.py:103-108 | Tile signs of a common gauge agree with every link. |
| `GaugeLinks.ConsistentIsCommonGauge` | conformance/family_oracle/twisted.py:103-108 | Tile signs that agree with every link extend to node signs of a common gauge. |
| `GaugeWalk.BuildRows` | conformance/family_oracle/twisted.py:120-130 | The neighbour rows hold exactly the links, seen from both ends. |
| `GaugeWalk.ScanRow` | conformance/family_oracle/twisted.py:140-144 | Every neighbour of a visited tile gets the potential its relation forces, by tile and then by relation, and new ones join the queue in that order. |
| `GaugeWalk.WalkFrom` | conformance/family_oracle/twisted.py:133-144 | The walk visits exactly what is connected to its start, every potential forced up to the sign of the start, and is the breadth-first walk through the sorted neighbours. |
| `WalkOrder.BreadthFirstUnique` | conformance/family_oracle/twisted.py:131-144 | The links determine the potentials that the breadth-first walks give. |
| `Twisted.Potentials` | conformance/family_oracle/twisted.py:131-144 | All tiles get signs; the walk counts one component for every smallest tile of a component; the links that discovered tiles form a spanning forest. |
| `Twisted.CountFrustrated` | conformance/family_oracle/twisted.py:145 | Counts the links whose potentials disagree with their relation. |
| `Twisted.FrustratedWithinRank` | conformance/family_oracle/twisted.py:145-149 | The frustrated links never outnumber the cycle rank. |
| `Twisted.BalancedExactly` | conformance/family_oracle/twisted.py:145-150 | No link is frustrated exactly when some tile signs agree with every link. |
| `Dimers.BlockedBound` | conformance/family_oracle/twisted.py:218-225 | When every free edge meets a used node, a node-disjoint set of free edges has at most as many members as there are used nodes. |
| `Dimers.GreedyPairs` | conformance/family_oracle/twisted.py:216-225 | At every place of the list the edge is taken exactly when fewer than the wanted number were taken before it and none of them meets it; if the walk stops short, no node-disjoint set of free edges is more than twice as large. |
| `Dimers.PicksUnique` | conformance/family_oracle/twisted.py:214-225 | The shuffled order determines the pairs. |
| `TwistedFamily.BuildStrong` | conformance/family_oracle/twisted.py:197-204 | Fails exactly when some tile pair is not a topology edge; otherwise every tile pair gets 1000 times the product of the two local gauge signs. |
| `TwistedFamily.TwistedWithinBound` | conformance/family_oracle/twisted.py:197-230 | Every coupling after the pairs are set is at most 1000 in magnitude. |
| `TwistedFamily.TileCouplingsStand` | conformance/family_oracle/twisted.py:197-230 | Neither the weak draws nor the pairs change the couplings inside a tile. |
| `TwistedFamily.DrawTwisted` | conformance/family_oracle/twisted.py:188-230 | Over a selection: strong couplings in the tiles, weak ones elsewhere, and the wanted number of pairs that the shuffled walk takes, or a shortfall of the walk, which proves that no node-disjoint set has more than twice one less than the wanted number. |
| `TwistedFamily.GroupWithinTiles` | conformance/family_oracle/twisted.py:111-130 | A node has at most as many memberships as selected tiles. |
| `Scoring.HammingSymmetric` | crates/quip-protocol/src/scoring.rs:152-170 | The distance is symmetric, also for different widths. |
| `Scoring.HammingToSelf` | crates/quip-protocol/src/scoring.rs:152-170 | The distance to itself is zero. |
| `Scoring.HammingTriangle` | crates/quip-protocol/src/scoring.rs:152-170 | The triangle inequality, for widths below 2^33. |
| `Scoring.WideTriangleFails` | crates/quip-protocol/src/scoring.rs:163-169 | For every width from 2^33 on, three vectors break the triangle inequality, because the 32-bit cast turns a distance of 2^32 into 0. |
| `Scoring.FlipInvariant` | crates/quip-protocol/src/scoring.rs:143-170 | Flipping all spins of one side changes nothing. |
| `Scoring.HammingAtMostHalf` | crates/quip-protocol/src/scoring.rs:163-169 | The distance is at most half the width. |
| `Diversity.PairwiseDistances` | crates/quip-protocol/src/diversity.rs:93-104 | The matrix holds the distance of every pair, symmetric, zero on the diagonal. |
| `Diversity.MostDistantPair` | crates/quip-protocol/src/diversity.rs:106-121 | The first pair in reading order among those of largest distance. |
| `Diversity.InitialTable` | crates/quip-protocol/src/diversity.rs:59-64 | The table starts as the true minimum distance to the first two picks. |
| `Diversity.Farthest` | crates/quip-protocol/src/diversity.rs:66-77 | The lowest unchosen candidate whose minimum distance to the chosen set is largest. |
| `Diversity.Admit` | crates/quip-protocol/src/diversity.rs:79-88 | Admitting a pick keeps every table entry equal to the true minimum distance to the chosen set. |
| `Diversity.HalfOfOptimal` | crates/quip-protocol/src/diversity.rs:65-91 | Any two picks are at least half as far apart as the closest two of any other set of the same size. |
| `Diversity.SelectionUnique` | crates/quip-protocol/src/diversity.rs:45-91 | The documented rule determines the selection: two lists that follow it are equal. |
| `Diversity.DiversityOf` | crates/quip-protocol/src/diversity.rs:17-37 | The loops compute the mean pairwise distance in milli, rounded half up. |
| `Diversity.DiversityAtMostHalf` | crates/quip-protocol/src/diversity.rs:17-37 | No set is more than 500 milli diverse. |
| `Diversity.MeanFits` | crates/quip-protocol/src/diversity.rs:26-36 | The 64-bit sums and products of the mean do not overflow while 501 times the number of pairs times the width fits 64 bits. |
| `Target.ValidateProofSet` | crates/quip-protocol/src/target.rs:75-115 | Each error exactly when its check is the first to fail, and success exactly when all pass; then the least energy, the selected diversity, and the valid count. |
| `Target.SelectedDiversityUnique` | crates/quip-protocol/src/target.rs:97-107 | The valid reads determine the diversity the gate is applied to. |
| `Target.LeastBelow` | crates/quip-protocol/src/target.rs:127-135 | The (energy, index)-least reads below the ceiling, as many as the proof limit allows, in that order. |
| `Target.ChosenSetIsLargest` | crates/quip-protocol/src/target.rs:126-140 | No set of distinct reads within the limit has more valid reads than the chosen set. |
| `Target.TooFewIsHopeless` | crates/quip-protocol/src/target.rs:126-140 | With too few reads below the ceiling no set of distinct reads passes. |
| `Target.BestOverall` | crates/quip-protocol/src/target.rs:119-122 | The best energy of the chosen set is the least over all reads below the ceiling. |
| `Target.LeastUnique` | crates/quip-protocol/src/target.rs:127-135 | The least reads are determined. |
| `PairSums.PairSumOrder` | crates/quip-protocol/src/diversity.rs:26-32 | The total distance does not depend on the order of the solutions. |
| `PairSums.ReachesExactly` | crates/quip-protocol/src/diversity.rs:17-37 | The rounded mean reaches a gate exactly when 2000 times the total distance is at least (2 gate - 1) times the pairs times the width. |
| `Finality.DiversityMissIsFinal` | crates/quip-protocol/src/target.rs:126-142 | When the gate is 0 or above 500, or at most one solution is needed, or no more reads are below the ceiling than are needed, or the proof limit is below the need, or two are needed and all reads below the ceiling fit the proof: a diversity miss means that no set of distinct reads passes. |
| `Finality.MalformedMissIsFinal` | crates/quip-protocol/src/target.rs:126-142 | When the gate is above 500, or positive with at most one solution needed, or no more reads are below the ceiling than are needed, or the proof limit is below the need: a malformed least read means that no set of distinct reads passes. |
| `OpenMisses.SpareReadIsOpen` | crates/quip-protocol/src/target.rs:126-142 | With two or more solutions needed and more reads below the ceiling than a proof may hold, some pool misses any gate from 1 to 500 while another set of its reads passes. |
| `OpenMisses.ManyNeededIsOpen` | crates/quip-protocol/src/target.rs:126-142 | With 64 or more solutions needed and a read to spare, some pool misses at any gate from 1 to 500 although every read fits the proof: the greedy rule takes a tie the wrong way. |
| `FlaggedPools.FewNeededIsOpen` | crates/quip-protocol/src/target.rs:126-142 | With 4 to 63 solutions needed and a read to spare, some pool misses at any gate from 1 to 500 although every read fits the proof: the most distant pair leads the greedy rule astray. |
| `FlaggedPools.ThreeNeededIsOpen` | crates/quip-protocol/src/target.rs:126-142 | The same with three solutions needed. |
| `MissesExactly.DiversityMissIsNotFinal` | crates/quip-protocol/src/target.rs:126-142 | The smallest case outside the condition, written out: three reads whose two least miss the diversity gate while another two pass. |
| `Varint.VarintReadsBack` | crates/ising-generators/src/blob.rs:226-236 | Every 64-bit value written as a varint is read back, wherever it stands. |
| `Varint.VarintIsMinimal` | crates/ising-generators/src/blob.rs:276-294 | Whatever the reader accepts is the one encoding of a 64-bit value. |
| `Varint.ZigzagRoundTrip` | crates/ising-generators/src/blob.rs:242-253 | Zigzag is a bijection between signed and unsigned 64-bit values, so the range error of its inverse cannot occur. |
| `Varint.ZigzagCounts` | crates/ising-generators/src/blob.rs:242-253 | Deltas are numbered 0, -1, 1, -2, 2, and so on. |
| `Varint.PutVarint` | crates/ising-generators/src/blob.rs:226-236 | Appends exactly the groups of the value. |
| `Varint.ShiftKeepsGroup` | crates/ising-generators/src/blob.rs:281-284 | The test that a 64-bit shift drops no bit of a group holds exactly when the group still fits the word. |
| `Varint.Reader.Byte` | crates/ising-generators/src/blob.rs:270-274 | Reads the next byte and moves past it, or neither. |
| `Varint.Reader.Varint` | crates/ising-generators/src/blob.rs:276-294 | The ten-group loop reads what the format says, with its error for truncated, overlong, overflowing, and non-minimal input, and moves the cursor past it. |
| `Varint.Reader.Count` | crates/ising-generators/src/blob.rs:296-304 | A count is accepted exactly when its items can fit what remains. |
| `Varint.Reader.IdDelta` | crates/ising-generators/src/blob.rs:306-309 | Adds a signed delta with the 64-bit overflow check. |
| `BlobItems.PairsAsNumbers` | crates/ising-generators/src/blob.rs:338-343 | Removed couplers are ordered by their first end and then by their second. |
| `BlobItems.NodesFaithful` | crates/ising-generators/src/blob.rs:367-372 | Node ids in any order read back, and only their own encoding is accepted. |
| `BlobItems.EdgesFaithful` | crates/ising-generators/src/blob.rs:373-379 | Edges in any order and orientation read back, and only their own encoding is accepted. |
| `BlobItems.RemovedNodesFaithful` | crates/ising-generators/src/blob.rs:391-396 | Ascending removed nodes read back, and what is accepted ascends strictly and is its own encoding. |
| `BlobItems.RemovedEdgesFaithful` | crates/ising-generators/src/blob.rs:397-403 | Removed couplers read back, and what is accepted is its own encoding. |
| `BlobLists.ListReadsBack` | crates/ising-generators/src/blob.rs:412-429 | A list whose items read back reads back as a whole, including its count check. |
| `BlobLists.ListIsMinimal` | crates/ising-generators/src/blob.rs:412-429 | An accepted list is the one encoding of its items. |
| `BlobCodec.RulesAreExact` | crates/ising-generators/src/blob.rs:319-351 | Validation passes exactly when the sizes fit, both lists ascend strictly, every node is in the lattice, and every edge is a coupler between kept nodes. |
| `BlobCodec.RemovalsLieInLattice` | crates/ising-generators/src/blob.rs:319-351 | Under the coordinate formulas, validated removals are lattice ids and couplers that touch no removed node. |
| `BlobCodec.ValidateZephyr` | crates/ising-generators/src/blob.rs:319-351 | The loops return the first broken rule in order. |
| `BlobCodec.EncodePayload` | crates/ising-generators/src/blob.rs:360-410 | The payload bytes, or the first lattice fault, or the size error, for every body. |
| `BlobCodec.ReadRemovedEdgeList` | crates/ising-generators/src/blob.rs:449-466 | Reads the coupler list with the errors in the order the code checks them. |
| `Blob.HeaderSpells` | docs/topology-format.md:21-26 | The header spells QTOP, then version 1, then 0 for an explicit body and 1 for a lattice. |
| `Blob.SampleExplicit` | docs/topology-format.md:42-47 | An explicit payload of three nodes out of order and two edges, byte for byte. |
| `Blob.SampleZephyr` | docs/topology-format.md:51-57 | A lattice payload with two removed nodes and two removed couplers, byte for byte. |
| `Crc.ShiftIsLinear` | crates/ising-generators/src/blob.rs:124-131 | A register step is linear over exclusive or. |
| `Crc.LookupFeedsByte` | crates/ising-generators/src/blob.rs:143-147 | One table lookup does what feeding the eight bits of a byte one at a time does. |
| `Crc.CrcTable` | crates/ising-generators/src/blob.rs:119-137 | Entry i is eight register steps on i. |
| `Crc.PolynomialExponents` | crates/ising-generators/src/blob.rs:124-131 | The polynomial has the fourteen exponents of CRC-32, highest power in the lowest digit. |
| `ChaCha.QuarterRound` | crates/ising-generators/src/rng.rs:50-63 | The twelve in-place steps are one quarter round on the four chosen words and leave the others alone. |
| `ChaCha.WordOfBlock` | crates/ising-generators/src/rng.rs:77-108 | Word i of block q is keystream word 16 q + i, with the block counter taken modulo 2^64. |
| `KnownWords.ColumnsThenDiagonals` | crates/ising-generators/src/rng.rs:88-95 | Quarter round c takes column c, and quarter round 4 + c the diagonal that starts at column c and moves one column right per row. |
| `KnownWords.ConstantsSpell` | crates/ising-generators/src/rng.rs:10 | The four constants are the little-endian words of the text of section 2.3 of RFC 8439. |
| `KnownWords.RotateExchanges` | crates/ising-generators/src/rng.rs:50-63 | Rotating left by any number of bits exchanges the upper digits with the lower ones. |
| `Words.AddWraps` | crates/ising-generators/src/rng.rs:50-63 | A word sum is the sum, or the sum less 2^32. |
| `Rng.Mix` | crates/ising-generators/src/rng.rs:88-95 | The eight quarter rounds written out, columns and then diagonals, are one double round. |
| `Rng.Generate` | crates/ising-generators/src/rng.rs:77-105 | Writes the block of a counter value: four double rounds added to the start state. |
| `Rng.ChaCha8Rng.Regen` | crates/ising-generators/src/rng.rs:77-108 | Replaces the exhausted block by the next one and advances the counter. |
| `Rng.ChaCha8Rng.NextU32` | crates/ising-generators/src/rng.rs:112-123 | Returns the keystream word at the position and moves the position by one. |
| `Uniform.LimitIsHigh` | crates/ising-generators/src/rng.rs:130 | The limit is the largest multiple of the bound within 2^32 and at least 2^31. |
| `Uniform.OneLowWordIsEnough` | crates/ising-generators/src/rng.rs:131-137 | The counter wraps, so one word below 2^31 anywhere makes every draw end. |
| `Shuffle.ShufflePermutes` | crates/ising-generators/src/rng.rs:140-159 | Shuffling permutes its input. |
| `Shuffle.SwapDrawn` | crates/ising-generators/src/rng.rs:152-157 | One turn of the loop draws with the right bound and swaps. |
| `Shuffle.Shuffle` | crates/ising-generators/src/rng.rs:150-159 | In place, the result is the Fisher-Yates order of the draws read from the stream, last position first; a slice longer than 2^32 - 1 is refused before a word is read. |
| `Lanes.QuarterRoundLanes` | crates/quip-protocol/src/chacha8.rs:43-64 | Every lane gets the scalar quarter round of its own words. |
| `Lanes.MixLanes` | crates/quip-protocol/src/chacha8.rs:95-104 | The eight quarter rounds written out give every lane a scalar double round. |
| `Lanes.StartLanes` | crates/quip-protocol/src/chacha8.rs:79-92 | Every lane starts as the scalar start state of its own counter. |
| `Lanes.WideBlocks` | crates/quip-protocol/src/chacha8.rs:78-115 | Row l of the output is the scalar block of counter + l modulo 2^64, for every number of lanes. |
| `Draws.SmallIndexIsRemainder` | crates/quip-protocol/src/chacha8.rs:177-198 | All branches of the table selection use the same index, the word modulo the table size. |
| `Draws.Select` | crates/quip-protocol/src/chacha8.rs:150-198 | Fills the chunk from the words after the skip and nothing else. |
| `Draws.DrawsConcatenate` | crates/quip-protocol/src/chacha8.rs:263-266 | Ranges drawn apart join to the range drawn at once. |
| `Draws.DrawInto` | crates/quip-protocol/src/chacha8.rs:273-287 | The draw, or the error exactly when there is something to draw and the table is empty, leaving the output alone. |
| `Draws.DrawIsing` | crates/quip-protocol/src/chacha8.rs:300-320 | Fields from the first words and couplings from the words after them, or the error exactly when a needed table is empty. |
| `ParamTypes.ValueRoundTrip` | conformance/family_oracle/params.py:118-142 | A packed value decodes to itself; packing gives a fitting raw value unless an ascii value holds a byte outside 0x20 to 0x7E. |
| `ParamTypes.RawRoundTrip` | conformance/family_oracle/params.py:118-142 | Packing a decoded raw value gives the raw value back. |
| `ParamTypes.KindRanges` | conformance/family_oracle/params.py:101-115 | Each integer kind holds exactly its documented range. |
| `ParamTypes.SampleValues` | docs/problem-families.md:47-54 | The documented values pack to their documented bytes. |
| `ParamTypes.BoundsApplyTo` | conformance/family_oracle/params.py:136-142 | Bounds apply to the number, to 0 or 1 for a truth value, and to the length of bytes. |
| `ParamTypes.SampleEncoding` | docs/problem-families.md:47-54 | The documented example parameters, byte for byte. |
| `ParamsLockstep.LayoutAcceptsEncodings` | crates/ising-generators/src/descriptor.rs:179-268 | The layout check accepts exactly the canonical encodings, up to 4096 bytes, of raw values that fit their kinds. |
| `ParamsParser.Fields.ReadNext` | crates/ising-generators/src/descriptor.rs:192-225 | One lockstep step: header, tag, payload fit, width, bool and ascii bytes. |
| `ParamsParser.Parse` | crates/ising-generators/src/descriptor.rs:259-268 | Accepts exactly the layouts that fit the schema, with code 7 otherwise. |
| `ParamsParser.CheckBounds` | crates/ising-generators/src/descriptor.rs:280-290 | The first field that is malformed or out of bounds decides. |
| `ParamsParser.ChecksAllBounds` | crates/ising-generators/src/descriptor.rs:280-290 | On accepted input the bounds walk succeeds exactly when every value is within its bounds and otherwise gives code 9. |
| `ParamsParser.FindsTheField` | crates/ising-generators/src/descriptor.rs:295-304 | On accepted input a schema tag gets its decoded value and any other tag none. |
| `ParamsParser.Get` | crates/ising-generators/src/descriptor.rs:295-304 | The value of the first field with the tag. |
| `ParamsParser.Admit` | crates/ising-generators/src/descriptor.rs:259-290 | Parsing and then checking bounds gives the verdict 7, 9, or accept. |
| `ParamsTable.LockstepIsTable` | conformance/family_oracle/params.py:153-170 | What the lockstep walk reads to the end, the table walk reads as the same fields. |
| `ParamsTable.TableIsLockstep` | crates/ising-generators/src/descriptor.rs:192-236 | Fields that come with the tags of the schema are what the lockstep walk reads. |
| `ParamsTable.CountedTagsMatch` | conformance/family_oracle/params.py:158-172 | Ascending known tags, as many as the schema has, are its tags: the counting check alone rules out a missing field. |
| `ParamsOracle.LayoutLoop` | conformance/family_oracle/params.py:145-173 | The loop with its dictionary returns the raw values of the fields read, or nothing on any layout fault. |
| `ParamsOracle.EncodeParams` | conformance/family_oracle/params.py:118-133 | Packs tag, length, and raw value of each field in schema order; fails exactly when a tag, a value, or a length overflows its width. |
| `Csr.SortIsStable` | crates/quip-solver-core/src/csr.rs:64-67 | Sorting orders a row by neighbour, keeps its entries as a multiset, and keeps the order of parallel couplings. |
| `Csr.PushEdges` | crates/quip-solver-core/src/csr.rs:44-63 | Each row holds the half-edges of its node in edge order; self-loops and out-of-range ends are skipped, missing couplings are zero. |
| `Csr.FromBase` | crates/quip-solver-core/src/csr.rs:43-103 | Row pointers, columns, and couplings hold exactly the neighbour-sorted rows one after the other. |
| `Digest.BufferedHasher.Put` | crates/ising-generators/src/digest.rs:42-57 | After any put the hasher and its buffer together hold exactly the bytes put so far, in order. |
| `Digest.BufferedHasher.Finish` | crates/ising-generators/src/digest.rs:66-70 | The digest is the hash of all bytes put. |
| `Digest.DigestOfPieces` | crates/ising-generators/src/digest.rs:42-70 | However the bytes are split into puts, the digest is the hash of all of them. |
| `Metadata.AcceptsEncodedSections` | crates/ising-generators/src/instance.rs:113-138 | A region is accepted exactly when it encodes sections whose kinds ascend strictly from 1 to 6 and are in the contract. |
| `Metadata.OrderedMeans` | crates/ising-generators/src/instance.rs:113-138 | The order of the sections: kinds ascend strictly from 1 to 6, all in the contract. |
| `Metadata.ValidateMetadata` | crates/ising-generators/src/instance.rs:113-138 | The loop accepts exactly those regions. |
| `Instance.LengthIsExact` | crates/ising-generators/src/instance.rs:214-227 | The checked sum is the length of the canonical bytes. |
| `Instance.HeadLayout` | docs/problem-families.md:278-284 | The format byte, the two digests, the nonce or 32 zeros, and both counts stand where the layout says. |
| `Instance.NodeLayout` | docs/problem-families.md:283 | Node ids stand where the layout says, word by word. |
| `Instance.EdgeLayout` | docs/problem-families.md:285 | The two ends of every edge stand where the layout says, word by word. |
| `Instance.CoefficientLayout` | docs/problem-families.md:286-287 | Fields and then couplings stand where the layout says, in two's complement. |
| `Instance.TailLayout` | docs/problem-families.md:288-290 | The offset and the metadata come last. |
| `Validation.CodesExactly` | crates/ising-generators/src/instance.rs:290-321 | The code of a rejected instance: bounds first, then lengths, edges, and digest, then the metadata. |
| `Validation.BoundsMeaning` | crates/ising-generators/src/instance.rs:186-200 | The bounds apply to three sizes and to the magnitudes of coefficients and offset. |
| `Validation.EdgesMeaning` | crates/ising-generators/src/instance.rs:302-311 | The three edge tests fail exactly when the edge list is not strictly ascending as a whole or leaves the node range. |
| `Validation.RecordsItsLength` | crates/ising-generators/src/instance.rs:316-320 | The recorded length is the length of the canonical bytes. |
| `Validation.StreamedDigest` | crates/ising-generators/src/instance.rs:259-264 | Streaming the encoder word by word through the buffered hasher hashes exactly the canonical bytes. |
| `Validation.CanonicalBytes` | crates/ising-generators/src/instance.rs:388-394 | Appending the puts of the encoder gives the canonical bytes. |
| `FirstDiff.NoneExactly` | crates/quip-solver-conformance/src/families.rs:544-549 | Nothing is found exactly when the sides are equal and their counts and section lengths lead to their end. |
| `FirstDiff.EqualSidesCanDiffer` | crates/quip-solver-conformance/src/families.rs:544-549 | Two empty strings are equal, yet a length difference is reported: equality alone is not enough. |
| `FirstDiff.CanonicalShaped` | crates/quip-solver-conformance/src/families.rs:523-541 | The canonical bytes of well-sized parts with an accepted metadata region have that shape. |
| `FirstDiff.WalkElements` | crates/quip-solver-conformance/src/families.rs:468-486 | The loop compares the elements in order. |
| `FirstDiff.WalkMetadata` | crates/quip-solver-conformance/src/families.rs:488-521 | The loop compares the section count, every header and payload, and both ends. |
| `Limits.ByteLimits` | docs/topology-format.md:13 | A payload takes at most 64 MiB, a parameter string 4 KiB. |
| `Limits.LatticeLimits` | docs/topology-format.md:55 | A stored lattice has a size from 1 to 32 and a tile size from 1 to 8. |
| `Limits.InstanceLimits` | docs/problem-families.md:336-344 | The bounds of every instance as powers of two. |
| `Limits.SumLimits` | crates/quip-protocol/src/scoring.rs:119-141 | Sums are held in 128 bits and energies in 64. |
| `Limits.FamilyLimits` | conformance/family_oracle/fields.py:23-40 | The node, edge, degree, and coefficient limits of the ice families. |
| `Limits.Codes` | docs/problem-families.md:431-433 | Codes 12, 13, and 14. |

## Left out

- IceTopology.Candidates: every end of an edge is a listed node; where the program would raise a lookup error there is no model.
- ZephyrEdges.AddedExactly: says which pairs the nested loops add; the order of the loops and the sorted list they produce are not modelled.
- IceSelect.Select: the recursion limit that the program raises and restores around the matching is not modelled.
- ChargedIceFamily.Generate: draws and shuffles are parameters, which Substreams takes from keystreams; the seeds of those, the decoding of the parameters, the metadata bytes, and the canonical encoding of the result are not part of it.
- ChargedIce.DirectEnergy: the dictionary of background signs is a list of pairs in edge order.
- IceFieldsFamily.Generate: as for charged ice, seeds, metadata, and canonical bytes are not part of it.
- TwistedFamily.Generate: as for charged ice, seeds, metadata, and canonical bytes are not part of it.
- GaugeWalk.ScanRow: a neighbour row is sorted with repeated (tile, relation) pairs dropped, which changes nothing because a repeat finds its tile visited.
- Scoring.HammingTriangle: below width 2^33 only, because from there on it is false; see Scoring.TriangleExactly.
- Diversity.SelectDiverse: the factor-two clause is claimed below width 2^33, where the distance is a metric.
- Diversity.DiversityOf: sums and products are unbounded; Diversity.MeanFits says for which sizes that is what the program computes.
- BlobCodec.ValidateZephyr: the binary search in the sorted list of removed nodes is list membership.
- Uniform.Draw: requires a keystream in which an acceptable word never runs out; without one the program does not end either.
- ParamsOracle.EncodeParams: a value of the wrong sort for its field, such as bytes for an integer, is not modelled.
- ParamsTable.ParsersAgree: for schemas whose tags start at 1 and ascend strictly.
- KnownWords.ConstantsSpell: no whole block is computed out; the word order, the constants, and the steps of a quarter round are stated instead.
- Crc.PolynomialExponents: no checksum of a given string is computed out.
- Validation.New: one 64-bit target; on a 32-bit target the length check could fail.
- FirstDiff.FindsFirst: the printed text of a difference is replaced by the bytes it prints.
- Csr.FromBase: couplings are integers instead of 32-bit floats, and columns and row pointers are not narrowed to 32 bits.
- Floating-point code (`adapt.rs`, `beta.rs`, `set_diversity`, the recovery of milli coefficients from floats): rounding would have to be assumed.
- The session loop, the conformance drivers, the mock miner, the C interface, and the example samplers: input, output, and process control.
- BLAKE3, DEFLATE and the gzip member around the payload, and protobuf: foreign code; the hash is an arbitrary function of a context and a byte string.
- Family ids, solver ids, labels, substream seeds, reject-code tables, and JSON: small grammars and tables.
- The Rust `ice` module and its lattice functions are not part of this model; the Python oracle's formulas are.
