# Verified models of the constraint simplifier and the authenticated trees

This project models, in Dafny, four parts of the repository and proves what they promise.

1. **The linear constraint simplifier of circom.** Systems of constraints `A * B - C = 0` modulo a prime are clustered by
   shared signals (union-find with path compression), solved by fraction-free elimination under two pivot heuristics,
   normalised with one batched inversion and substituted back; the result is pushed into the non-linear constraints
   through an index, and the surviving signals are renumbered. The central results: the whole pass ends and keeps the
   solutions of the program (`Simplification.Simplify`), and every solution of the result comes from one of the program
   exactly if the equalities have a common solution, or the program with the last constants only has none
   (`Simplification.StoredExact`, `Simplification.SimplifyExact`). Rounds are made until no linear constraint is left
   that could be used, or their number is used up (`Simplification.Simplify`). The renumbered constraints that are
   exported have the same property in terms of witness vectors
   (`Correspondence.WitnessComplete`, `Correspondence.WitnessSound`). Writer and reader of the R1CS file undo each other
   for any order of sections (`R1csReader.ReadR1cs`, `R1csRoundTrip.RoundTrip`).
2. **The polynomial algebra of the Verkle tree.** The recursive transform over a prime field equals the quadratic one and
   is inverted by its inverse; evaluation without interpolation, interpolation, division and batched inversion are correct
   for all inputs, with the exact conditions where the code has one; subset sums and linear combinations are exact for
   every partition size. The quotient in evaluation form is the polynomial quotient, and the aggregated check of the
   verifier accepts exactly when the weighted differences of values vanish (`Opening.VerifierExact`); a false claim passes for
   exactly one residue of its random factor (`Opening.FalseClaimCaught`).
3. **The Verkle tree.** Insertion with splitting of stems, post-order commitment and relinking through a store of
   serialised nodes refines a map exactly as long as no two nodes of the new tree share a reference; when they do, and
   what is then lost, is proved for commitments to numbers; the root depends on the contents only
   (`VerkleTree.VerkleTree.Insert`, `SharedEntries.SharedExactly`, `VerkleTree.ContentsDetermineTree`). The proof of keys
   of a tree is accepted for the values that `get` returns exactly if none is above the modulus
   (`VerkleProof.ProveAndVerify`).
4. **The Merkle Patricia trie** refines a map in both modes for keys of any length, with the exact answers for other
   keys; its root depends on the contents only (`MerkleTrie.ContentsDetermineRoot`), and its proofs are accepted exactly
   for what it stores (`MerkleTrie.MerklePatriciaTrie.Insert`, `MerkleTrie.MerklePatriciaTrie.Get`, `MerkleProof.VerificationExact`).

Each `.dfy` file is one module; `dafny verify dfyconfig.toml` checks all of them.

## How to read it

- Constraints are maps from signal to coefficient; signal 0 is the constant one, and an assignment `w` has `w(0) == 1`.
  `Cong(p, a, b)` says that two integers are the same field element.
- Operations that the source runs as loops over mutable state are methods; what they compute is a function or a predicate
  beside them, and the lemmas speak about those. Objects whose fields the source updates are classes.
- Exceptions, error results and panics that a caller can meet are `None`, `null` or `false`. Where a hypothesis rules an
  error out, the precondition says so, and the proof shows that the lookup or unwrap succeeds.
- Input order of hash maps and sets is an arbitrary choice.

## Where code and expectation differ

- Encoding substitutions keeps one entry per signal (simplification_utils.rs:520-527). Of several constants for one signal
  that may be removed only the last counts: `Frames.EncodeForgets` and `Simplification.ContradictionLost` show it,
  `Frames.EncodeExact` and `Simplification.SimplifyExact` say exactly when nothing is lost.
- `inv` of a nonzero multiple of the modulus is one, and one such entry turns a whole batch of `multi_inv` into zeros
  (`Polynomials.Inv`, `Polynomials.MultiInv`).
- `lagrange_interp` gives zero at repeated points (`Interpolation.ValueExactly`).
- A chunk size that does not divide 256 loses the last bits of a key (`KeyChunks.ChunksIdentify`).
- Different nodes of a Verkle tree can have one reference: an absent value counts as zero, values count modulo the order of
  the curve, and leading zeros of a stem do not count. The later node replaces the earlier one in the store
  (`SharedEntries.SharedExactly`, `SharedEntries.LosesData`, `SharedEntries.StemsNotApart`).
- A value above the modulus cannot be verified (`Opening.HonestAccepted`, `Opening.LargeValueRefused`).
- A lookup in the Merkle Patricia trie answers for a key without a value if its path ends at a leaf or a branch
  (`MerkleTrie.MerklePatriciaTrie.Get`).
- The verifier of its proofs compares a short first node with nothing (`MerkleProof.FirstNodeExact`,
  `MerkleProof.ShortLeafAccepted`).

## Model

| member | source | states |
|---|---|---|
| Field.MultiInv | circom/circom_algebra/src/modular_arithmetic.rs:71-91 | one inversion inverts a whole list of nonzero elements; the trailing zero of the result is kept |
| Field.Inverse | circom/circom_algebra/src/modular_arithmetic.rs:41-47 | the result times a nonzero element is one, and it is reduced |
| Coefficients.AddCoefficients | circom/circom_algebra/src/algebra.rs:202-218 | the loop over the hash map adds coefficient by coefficient, whatever the order of keys |
| Coefficients.MultiplyCoefficients | circom/circom_algebra/src/algebra.rs:220-229 | the loop multiplies every coefficient once, whatever the order of keys |
| Coefficients.RemoveZeroCoefficients | circom/circom_algebra/src/algebra.rs:1296-1307 | exactly the nonzero coefficients remain |
| Coefficients.EvalSum | circom/circom_algebra/src/algebra.rs:202-218 | under every assignment the value of a sum of forms is the sum of the values |
| Coefficients.EvalScale | circom/circom_algebra/src/algebra.rs:220-229 | under every assignment scaling a form scales its value |
| Coefficients.EvalAddSymbol | circom/circom_algebra/src/algebra.rs:188-200 | adding to one coefficient adds that multiple of the signal |
| Coefficients.EvalDropZeros | circom/circom_algebra/src/algebra.rs:1296-1307 | dropping zeros leaves every value unchanged |
| Algebra.PlusValue | circom/circom_algebra/src/algebra.rs:247-347 | the sum of two expressions, in every pairing of kinds that stays quadratic, has the sum of the values |
| Algebra.TimesValue | circom/circom_algebra/src/algebra.rs:349-440 | the product has the product of the values, whenever it is not marked non-quadratic |
| Algebra.MinusValue | circom/circom_algebra/src/algebra.rs:441-450 | the difference has the difference of the values |
| Algebra.PlusDegree | circom/circom_algebra/src/algebra.rs:247-347 | exactly when a sum is non-quadratic, and otherwise its kind: the larger degree of its parts |
| Algebra.TimesDegree | circom/circom_algebra/src/algebra.rs:349-440 | exactly when a product is non-quadratic, and otherwise its kind: the degrees of the factors add up |
| Algebra.MinusDegree | circom/circom_algebra/src/algebra.rs:441-450 | a difference has the kind of the sum |
| Constraints.IntoExpressionValue | circom/circom_algebra/src/algebra.rs:804-825 | turning a form into a number, a signal or a linear expression keeps its value |
| Constraints.IntoExpressionKind | circom/circom_algebra/src/algebra.rs:804-825 | a number exactly for a form with the constant only, a signal exactly for one signal with coefficient one |
| Constraints.NewSubstitutionValue | circom/circom_algebra/src/algebra.rs:844-862 | a substitution exists for every expression that is not quadratic, and its form has the expression's value |
| Constraints.NewSubstitutionExists | circom/circom_algebra/src/algebra.rs:844-862 | there is none exactly for quadratic and non-quadratic expressions and for linear ones that mention the signal itself |
| Constraints.IntoConstraintHolds | circom/circom_algebra/src/algebra.rs:113-145 | there is a constraint exactly for expressions that are at most quadratic, and it holds exactly when the expression is zero |
| Constraints.LinearHolds | circom/circom_algebra/src/algebra.rs:1052-1054 | a linear constraint holds exactly when its form vanishes |
| Constraints.ClearNotNormalizedValue | circom/circom_algebra/src/algebra.rs:1067-1077 | moving a signal aside without dividing: the form vanishes exactly when minus coefficient times signal equals the rest |
| Constraints.ClearNormalizedValue | circom/circom_algebra/src/algebra.rs:1056-1066 | solving for a signal: the form vanishes exactly when the signal equals the cleared form |
| Constraints.RawSubstitution | circom/circom_algebra/src/algebra.rs:1279-1294 | replacing a signal in a form, as a function of the form and the substitution |
| Constraints.SubstitutedValue | circom/circom_algebra/src/algebra.rs:1279-1294 | for assignments that obey the substitution, replacing the signal keeps the value |
| Constraints.ApplyHolds | circom/circom_algebra/src/algebra.rs:1138-1147 | for assignments that obey the substitution, the constraint holds before exactly when it holds after |
| Constraints.ApplySignals | circom/circom_algebra/src/algebra.rs:1138-1147 | the replaced signal is gone and only signals of the right-hand side have come |
| Constraints.ConstantReduction | circom/circom_algebra/src/algebra.rs:1326-1344 | a product with a constant side is folded into the third form |
| Constraints.FixRawConstraint | circom/circom_algebra/src/algebra.rs:1309-1324 | zeros go and products with a constant side are folded |
| Constraints.FixHolds | circom/circom_algebra/src/algebra.rs:1309-1324 | fixing a constraint keeps its solutions |
| Constraints.FixCanonical | circom/circom_algebra/src/algebra.rs:1309-1324 | a fixed constraint has no zero coefficients |
| Constraints.FixLinear | circom/circom_algebra/src/algebra.rs:1309-1324 | a constraint whose product side is empty becomes linear |
| Constraints.FixLinearExactly | circom/circom_algebra/src/algebra.rs:1309-1344 | a constraint becomes linear exactly if one of its factors has no signal with a nonzero coefficient |
| Constraints.FixProduct | circom/circom_algebra/src/algebra.rs:1309-1324 | a product of two factors with signals keeps its three forms but for zeros |
| Elimination.PivotForMeaning | circom/circom_algebra/src/simplification_utils.rs:259-294 | the pivot taken from a linear constraint holds exactly when the constraint does |
| Elimination.MergeMeaning | circom/circom_algebra/src/simplification_utils.rs:269-283 | fraction-free merge: given the stored pivot, the new pivot holds exactly when the merged constraint does |
| Elimination.ConflictStep | circom/circom_algebra/src/simplification_utils.rs:269-283 | resolving a conflict keeps the solutions under the stored pivots |
| Elimination.ConflictDescends | circom/circom_algebra/src/simplification_utils.rs:259-294 | after a conflict every takeable signal lies strictly below the one just tried, which bounds the loop |
| Elimination.TakeSignal3 | circom/circom_algebra/src/simplification_utils.rs:368-377 | the largest signal that is not forbidden, or none if all are |
| Elimination.TreatConstraint3 | circom/circom_algebra/src/simplification_utils.rs:259-294 | one constraint becomes a pivot, a residual constraint or nothing; the solutions are kept and pivots descend |
| Elimination.SubstitutionProcess3 | circom/circom_algebra/src/simplification_utils.rs:143-154 | pivots and residual constraints have the solutions of the system; the residual ones mention only forbidden signals |
| Elimination.SignalDefinition.Delete | circom/circom_algebra/src/simplification_utils.rs:33-35 | a taken signal is recorded |
| Occurrences.SignalDefinition4.Delete | circom/circom_algebra/src/simplification_utils.rs:51-54 | a taken signal is recorded, the latest in front |
| Occurrences.SignalsInformation.New | circom/circom_algebra/src/simplification_utils.rs:66-92 | the counts are the numbers of constraints that mention each takeable signal; a unique signal comes with the one constraint that mentions it |
| Occurrences.SignalsInformation.RemoveConstraint | circom/circom_algebra/src/simplification_utils.rs:94-107 | every takeable signal of the constraint is counted once less; no count underflows |
| Occurrences.SignalsInformation.RemoveSignal | circom/circom_algebra/src/simplification_utils.rs:109-113 | the count of one signal is forgotten |
| Occurrences.TakeSignal4 | circom/circom_algebra/src/simplification_utils.rs:379-411 | an eliminated signal if there is one, else one with fewest occurrences, the larger of two signals with equally many; none exactly if all are forbidden |
| EliminationFewest.WeightFalls | circom/circom_algebra/src/simplification_utils.rs:312-349 | replacing an eliminated signal by signals eliminated later lowers a weighted sum, so conflicts end |
| EliminationFewest.ConflictLater | circom/circom_algebra/src/simplification_utils.rs:312-349 | a conflict replaces the eliminated signal only by signals eliminated later or still live |
| EliminationFewest.TreatUniqueConstraint4 | circom/circom_algebra/src/simplification_utils.rs:296-310 | a constraint with a signal of its own becomes the pivot of that signal |
| EliminationFewest.TreatConstraint4 | circom/circom_algebra/src/simplification_utils.rs:312-349 | one constraint, under the heuristic of fewest occurrences: solutions kept, order and counts in step, and no signal of the new pivot occurs less often than the one eliminated |
| EliminationFewest.TakeUniques | circom/circom_algebra/src/simplification_utils.rs:169-176 | exactly the least signal of every constraint that has signals for itself is taken; the lookups of counts find their entries |
| EliminationFewest.SubstitutionProcess4 | circom/circom_algebra/src/simplification_utils.rs:156-185 | the same result as the other heuristic promises, with pivots that mention only later signals; every constraint that has signals for itself has lost the least one |
| BackSubstitution.NormalizeSubstitutions | circom/circom_algebra/src/simplification_utils.rs:414-437 | every pivot is divided by its coefficient with one batched inversion |
| BackSubstitution.NormalizedMeaning | circom/circom_algebra/src/simplification_utils.rs:414-437 | a normalised substitution is obeyed exactly when its pivot holds |
| BackSubstitution.ApplyStored | circom/circom_algebra/src/simplification_utils.rs:439-449 | after applying the stored substitutions none of their signals is left in the right-hand side |
| BackSubstitution.CreateNonoverlapping | circom/circom_algebra/src/simplification_utils.rs:451-480 | no substituted signal occurs in any right-hand side, and obeying all is the same as before |
| BackSubstitution.FullSimplification | circom/circom_algebra/src/simplification_utils.rs:543-581 | under both heuristics: the result has the solutions of the input; substitutions do not overlap; removed signals are not forbidden; residual constraints mention only forbidden signals; for 350 up to a million constraints without the old heuristics every constraint that has signals for itself loses the least one, and otherwise every removed signal is expressed by smaller ones |
| Extension.ExtensionObeys | circom/circom_algebra/src/simplification_utils.rs:543-581 | every assignment extends to the removed signals |
| Extension.ExtensionUnique | circom/circom_algebra/src/simplification_utils.rs:543-581 | the extension is the only one, modulo the prime |
| Extension.SimplifiedProjects | circom/circom_algebra/src/simplification_utils.rs:543-581 | the residual system is the projection: it holds exactly for assignments that agree with a solution of the input on the kept signals |
| Clusters.ClusterArena.ShrinkJumpsAndFind | circom/constraint_list/src/constraint_simplification.rs:48-59 | finds the representative, terminates, and path compression leaves all representatives as they were |
| Clusters.ClusterArena.ArenaMerge | circom/constraint_list/src/constraint_simplification.rs:61-69 | the two sets become one; a set merged with itself is not lost or counted twice |
| Clusters.RootRedirected | circom/constraint_list/src/constraint_simplification.rs:48-59 | pointing at the representative changes no representative |
| Clusters.ConnectedJoin | circom/constraint_list/src/constraint_simplification.rs:61-69 | two connected groups with a common signal are connected together |
| Clusters.VisitSignals | circom/constraint_list/src/constraint_simplification.rs:71-86 | the signals of one constraint merge it with every cluster that has one of them |
| Clusters.BuildClusters | circom/constraint_list/src/constraint_simplification.rs:45-99 | the clusters partition the non-empty constraints; no two share a signal; each is connected; each knows its number of distinct signals |
| Equalities.EqualityMeaning | circom/circom_algebra/src/algebra.rs:1346-1360 | a constraint recognised as an equality of two signals holds exactly when they are equal |
| Equalities.ClusterMeaning | circom/constraint_list/src/constraint_simplification.rs:126-196 | a connected cluster of equalities holds exactly when all its signals are equal |
| Equalities.CollapsedMeaning | circom/constraint_list/src/constraint_simplification.rs:126-196 | renaming to one kept signal together with the residual equalities says that all signals are equal |
| Equalities.SingleEquality | circom/constraint_list/src/constraint_simplification.rs:135-156 | one equality: the kept signal is the smaller one if both may be removed, and otherwise the smallest that has to stay; the other one is renamed, or kept equal by a residual constraint if it has to stay too |
| Equalities.Redirect | circom/constraint_list/src/constraint_simplification.rs:157-195 | the least remaining signal is kept, or the least of all if none has to remain; the others are renamed or kept equal |
| Equalities.EqClusterSimplification | circom/constraint_list/src/constraint_simplification.rs:126-196 | a cluster holds exactly when the substitutions are obeyed and the residual equalities hold; no forbidden signal is removed, and the signal kept in place of others is the smallest that has to stay, or the smallest of all |
| Stages.PartitionHolds | circom/constraint_list/src/constraint_simplification.rs:198-251 | the clusters hold together exactly when the constraints do |
| Stages.EqSimplification | circom/constraint_list/src/constraint_simplification.rs:198-251 | all clusters of equalities: same solutions, no overlap, only renamings |
| Stages.LinearSimplification | circom/constraint_list/src/constraint_simplification.rs:275-325 | all clusters of linear constraints: same solutions, no overlap, residual constraints over forbidden signals; every cluster by the heuristic for its size |
| Stages.ConstantEqSimplification | circom/constraint_list/src/constraint_simplification.rs:253-273 | every equality with a constant gives a substitution, in order, or stays if its signal is forbidden; same solutions |
| Stages.ConstantMeaning | circom/circom_algebra/src/algebra.rs:1362-1372 | an equality with a constant holds exactly when its substitution is obeyed |
| Frames.EncodeObeyed | circom/circom_algebra/src/simplification_utils.rs:520-527 | an assignment that obeys the list obeys the encoded map |
| Frames.EncodeExact | circom/circom_algebra/src/simplification_utils.rs:520-527 | for constants the map has the solutions of the list exactly if no signal has two different constants |
| Frames.EncodeForgets | circom/circom_algebra/src/simplification_utils.rs:520-527 | two different constants for one signal: the map is obeyed and the list is not |
| Frames.EncodeGood | circom/circom_algebra/src/simplification_utils.rs:520-527 | lists that do not overlap give maps whose entries mention no replaced signal |
| LastEqualities.TiedExactly | circom/constraint_list/src/constraint_simplification.rs:481-497 | two signals are equal in all solutions of the equalities exactly if the renaming gives them the same signal |
| LastEqualities.SupersededRepeated | circom/circom_algebra/src/simplification_utils.rs:520-527 | an equality with a constant is superseded, in terms of the input, exactly if its renamed form comes again later and its signal may be removed |
| LastEqualities.SameEncoding | circom/circom_algebra/src/simplification_utils.rs:520-527 | dropping all constants of a signal but the last does not change the encoded map |
| LastEqualities.LastEnough | circom/circom_algebra/src/simplification_utils.rs:520-527 | if all equalities have a common solution, the last constants imply the dropped ones |
| Frames.FastEncodedConstraintSubstitution | circom/circom_algebra/src/simplification_utils.rs:496-507 | all replaced signals leave the constraint, and along the map it keeps its solutions |
| Frames.SubstituteAll | circom/constraint_list/src/constraint_simplification.rs:494-503 | a list of linear constraints rewritten one by one, fixed where something was replaced |
| Frames.ConstantRenamed | circom/constraint_list/src/constraint_simplification.rs:499-503 | renaming turns an equality with a constant into one |
| Storage.ConstraintStorage.AddConstraint | circom/circom_algebra/src/constraint_storage/mod.rs:27-32 | the constraint is appended and its position returned |
| Storage.ConstraintStorage.Replace | circom/circom_algebra/src/constraint_storage/mod.rs:42-46 | one position is replaced, nothing beyond the end |
| Storage.ConstraintStorage.ExtractEmpty | circom/circom_algebra/src/constraint_storage/mod.rs:48-60 | the others stay, in order |
| NonLinear.BuildRelevantSet | circom/constraint_list/src/constraint_simplification.rs:398-429 | exactly the signals of all components as they are after renaming and deleting |
| NonLinear.ApplyFrames | circom/constraint_list/src/non_linear_utils.rs:6-31 | one constraint through all frames: same solutions along them, and only reachable signals left |
| NonLinear.ObtainAndSimplifyNonLinear | circom/constraint_list/src/non_linear_utils.rs:6-31 | the constraints of all components are divided into stored and linear ones that together have the same solutions along the frames |
| SignalIndex.BuildNonLinearSignalMap | circom/constraint_list/src/constraint_simplification.rs:328-343 | each signal of a stored constraint lists it, and nothing else is listed |
| SignalIndex.ConstraintProcessing | circom/constraint_list/src/constraint_simplification.rs:351-377 | the listed constraints are rewritten in place, their new signals indexed, and those that became linear reported |
| SignalIndex.ApplySubstitutionToMap | circom/constraint_list/src/constraint_simplification.rs:345-396 | the index stays complete; no substituted signal is left in storage or in the returned list; storage and list have the same solutions as before along the substitutions; no constraint that has become linear stays in the storage; exactly which signals the index has afterwards |
| SignalIndex.PushedMeaning | circom/constraint_list/src/constraint_simplification.rs:345-396 | the solutions of the storage before are those of storage and returned constraints after, along the substitutions |
| Witness.RebuildWitness | circom/constraint_list/src/constraint_simplification.rs:101-124 | every kept signal is numbered by the kept signals before it; unused signals are dropped |
| Witness.RenumberingBijective | circom/constraint_list/src/constraint_simplification.rs:101-124 | the numbering is an order-preserving bijection onto the numbers below its size |
| Witness.GetWitnessAsVec | circom/constraint_list/src/lib.rs:187-193 | the vector inverts the numbering in both directions |
| Log.LogAppend | circom/constraint_list/src/constraint_simplification.rs:9-18 | the log of substitutions stays triangular: no right-hand side mentions a signal eliminated before it |
| Log.SolveCorrect | circom/constraint_list/src/constraint_simplification.rs:442-730 | a triangular log without contradicting constants can be solved for the eliminated signals |
| Simplification.RemoveNotRelevant | circom/constraint_list/src/constraint_simplification.rs:431-438 | exactly the relevant entries of a map remain |
| Simplification.EncodeRelevant | circom/constraint_list/src/constraint_simplification.rs:556-563 | selecting relevant substitutions before encoding is selecting entries afterwards |
| Simplification.ReachedClean | circom/constraint_list/src/constraint_simplification.rs:581-589 | after the three frames no eliminated signal is left in a non-linear constraint |
| Simplification.SingleAssignments | circom/constraint_list/src/constraint_simplification.rs:481-511 | the stage of equalities: solutions kept, eliminated signals gone from the other lists |
| Simplification.ConstantAssignments | circom/constraint_list/src/constraint_simplification.rs:513-531 | the stage of constants: solutions kept, eliminated signals gone from the linear constraints |
| Simplification.LinearAssignments | circom/constraint_list/src/constraint_simplification.rs:544-577 | the stage of linear constraints, with and without it |
| Simplification.DoRound | circom/constraint_list/src/constraint_simplification.rs:613-645 | a round keeps the solutions of log, residual, linear and stored constraints together, the index, and the absence of eliminated signals; a round that leaves linear constraints has eliminated a signal |
| Simplification.DoRounds | circom/constraint_list/src/constraint_simplification.rs:613-645 | rounds are made exactly until no linear constraint is left or the allowed number is used up |
| Simplification.EnoughRounds | circom/constraint_list/src/constraint_simplification.rs:613-645 | more rounds than signals never leave a linear constraint |
| Simplification.EndedLinear | circom/constraint_list/src/constraint_simplification.rs:646-693 | if no linear constraint is left for a round, stored linear constraints have forbidden signals only |
| Simplification.Simplify | circom/constraint_list/src/constraint_simplification.rs:442-730 | the whole pass ends; obeying the log and the stored constraints is the same as all original constraints, and obeying the last constants only is the same as the program with the last constants only; every stored signal is numbered; deleted signals are not forbidden; the stages in their order, exactly the rounds that are made, and exactly the signals that are kept; unless the rounds run out, and always with more rounds than signals, stored linear constraints have forbidden signals only |
| Simplification.StoredExact | circom/constraint_list/src/constraint_simplification.rs:442-730 | the solutions of the result are exactly those that extend to the program in which every signal keeps its last constant only |
| Simplification.AgreeSame | circom/circom_algebra/src/simplification_utils.rs:520-527 | if the equalities have a common solution, that program has the solutions of the original one |
| Simplification.ContradictionLost | circom/circom_algebra/src/simplification_utils.rs:520-527 | for x = 1 and x = 2 with x not forbidden the result has a solution and the program has none |
| Simplification.SimplifyExact | circom/constraint_list/src/constraint_simplification.rs:442-730 | every solution of the program solves the result; every solution of the result extends to one of the program exactly if the equalities have a common solution, or the program with the last constants only has none |
| Correspondence.ApplyRawCorrespondence | circom/circom_algebra/src/algebra.rs:1245-1264 | renames a form, and fails exactly when a signal has no number |
| Correspondence.RenamedEval | circom/circom_algebra/src/algebra.rs:1245-1264 | the renamed form has the same value |
| Correspondence.Export | circom/constraint_list/src/r1cs_porting.rs:22-33 | after a pass no signal of a stored constraint is unknown, so all constraints are written |
| Correspondence.WitnessComplete | circom/constraint_list/src/r1cs_porting.rs:22-33 | a solution of the program, read through the witness vector, solves the written constraints |
| Correspondence.WitnessSound | circom/constraint_list/src/r1cs_porting.rs:22-33 | a solution of the written constraints comes, with those wire values, from a solution of the program with the last constants only, and from one of the program itself if the equalities agree |
| R1csWriter.BigintAsBytes | circom/constraint_writers/src/r1cs_writer.rs:16-28 | a number takes exactly the bytes of its field if it fits, and is then little-endian and padded; otherwise it takes more |
| R1csWriter.SortedKeys | circom/constraint_writers/src/r1cs_writer.rs:59-60 | all keys, each once, in the order of their bytes |
| R1csWriter.ObtainLinearCombinationBlock | circom/constraint_writers/src/r1cs_writer.rs:49-72 | count and terms of a linear combination in sorted order, with the size of the block |
| R1csWriter.PatchSize | circom/constraint_writers/src/r1cs_writer.rs:39-47 | the size replaces the place holder and nothing else changes |
| R1csWriter.R1CSWriter.AfterSection | circom/constraint_writers/src/r1cs_writer.rs:271-277 | a finished section is framed by its type and its true size |
| R1csWriter.SectionWriter.WriteHeader | circom/constraint_writers/src/r1cs_writer.rs:246-269 | the header fields in order, and their size |
| R1csWriter.SectionWriter.WriteConstraint | circom/constraint_writers/src/r1cs_writer.rs:282-308 | three blocks, and one more constraint counted |
| R1csWriter.SectionWriter.WriteSignal | circom/constraint_writers/src/r1cs_writer.rs:327-341 | a signal in eight bytes |
| R1csWriter.SectionWriter.WriteGateUsages | circom/constraint_writers/src/r1cs_writer.rs:358-391 | names closed by a zero byte, parameters in the field size |
| R1csWriter.SectionWriter.WriteGateApplications | circom/constraint_writers/src/r1cs_writer.rs:408-441 | index and signals of every application |
| R1csWriter.WriteR1cs | circom/constraint_list/src/r1cs_porting.rs:19-60 | the file holds exactly the sections that describe the contents, constraints before the header; no file is written exactly if the size of a section exceeds 64 bits |
| R1csReader.ReadBigint | circom/constraint_writers/src/r1cs_reader.rs:40-48 | reads back a number written into a field of that size |
| R1csReader.ReadLinearCombinationBlock | circom/constraint_writers/src/r1cs_reader.rs:69-85 | reads back a linear combination, in whatever order its terms were written |
| R1csReader.ReadConstraint | circom/constraint_writers/src/r1cs_reader.rs:87-98 | reads back three combinations and stops behind them |
| R1csReader.ReadSection | circom/constraint_writers/src/r1cs_reader.rs:50-59 | finds type and body of a framed section |
| R1csReader.ReadHeader | circom/constraint_writers/src/r1cs_reader.rs:240-261 | reads back the header, whose field size is its own first field |
| R1csReader.ReadGateUsages | circom/constraint_writers/src/r1cs_reader.rs:343-369 | reads back names without zero bytes and their parameters |
| R1csReader.ReadGateApplications | circom/constraint_writers/src/r1cs_reader.rs:387-404 | reads back all applications |
| R1csReader.FindSections | circom/constraint_writers/src/r1cs_reader.rs:459-476 | finds the start of every section by its size, for any order |
| R1csReader.ReadR1cs | circom/constraint_writers/src/r1cs_reader.rs:453-564 | returns exactly the contents that the sections describe, for any order of three or five sections |
| R1csRoundTrip.RoundTrip | circom/constraint_writers/src/r1cs_writer.rs:155-278 | what is written is read back, and contents are refused exactly if the size of a section exceeds 64 bits |
| R1csLayout.FileStart | circom/constraint_writers/src/r1cs_writer.rs:93-101 | a file begins with "r1cs", the version one and the number of sections, in numbers |
| R1csLayout.SectionFields | circom/constraint_writers/src/r1cs_writer.rs:30-47 | a section is its type in four bytes, its size in eight, and its body |
| R1csLayout.HeaderFields | circom/constraint_writers/src/r1cs_writer.rs:246-269 | at which byte each of the eight header fields stands |
| R1csLayout.BlockFields | circom/constraint_writers/src/r1cs_writer.rs:49-72 | the number of terms, then signal and coefficient of each term |
| R1csLayout.SignalFields | circom/constraint_writers/src/r1cs_writer.rs:327-341 | eight bytes for every signal |
| R1csLayout.UsageFields | circom/constraint_writers/src/r1cs_writer.rs:358-391 | name, zero byte, number of parameters, parameters |
| R1csLayout.ApplicationFields | circom/constraint_writers/src/r1cs_writer.rs:408-441 | index, number of signals, signals |
| Powers.Fermat | verkle/utils/fft.py:43-45 | a nonzero element to the power p - 1 is one |
| Powers.ExpInverts | verkle/utils/fft.py:43-45 | pow(x, p - 2, p) inverts every nonzero x |
| Fourier.SimpleFt | verkle/utils/fft.py:3-14 | the quadratic transform gives the values of the polynomial at the powers of the root |
| Fourier.Fft | verkle/utils/fft.py:16-29 | for a root of exact order 2^k the recursive transform gives the same list as the quadratic one |
| Fourier.ButterflyPair | verkle/utils/fft.py:22-28 | two values of the whole from one value of each half |
| Fourier.ExpandRootOfUnity | verkle/utils/fft.py:31-36 | the powers up to the first that is one again: as many as the order, and the loop ends |
| Fourier.FftInto | verkle/utils/fft.py:38-54 | pads with zeros, and transforms forwards or backwards |
| Fourier.InverseOfTransform | verkle/utils/fft.py:38-54 | the inverse transform undoes the transform on reduced lists |
| Fourier.TransformOfInverse | verkle/utils/fft.py:38-54 | the transform undoes the inverse transform on reduced lists |
| Fourier.TransformInjective | verkle/utils/fft.py:38-54 | polynomials with the same values on the domain are the same |
| Fourier.InvFftAtPoint | verkle/utils/fft.py:56-72 | for every x, the value at x of any polynomial that has the given values on the domain |
| Fourier.AtPointOfInverse | verkle/utils/fft.py:56-72 | in particular of the one that the inverse transform recovers |
| Polynomials.Inv | verkle/utils/poly_utils.py:20-30 | inverts by extended Euclid exactly the elements that are nonzero modulo p; zero gives zero, other multiples of p give one |
| Polynomials.Div | verkle/utils/poly_utils.py:43-44 | the quotient times the divisor is the dividend, for divisors that are nonzero modulo p |
| Polynomials.MultiInv | verkle/utils/poly_utils.py:32-41 | all inverses with one inversion, zeros kept, exactly if no entry is a nonzero multiple of p; otherwise everything is zero |
| Polynomials.EvalPolyAt | verkle/utils/poly_utils.py:46-53 | the value of the polynomial, although only the power is reduced on the way |
| Polynomials.MulPolys | verkle/utils/poly_utils.py:67-72 | the coefficients of the product |
| Polynomials.ConvCommutes | verkle/utils/poly_utils.py:67-72 | products do not depend on the order of the factors |
| Polynomials.DivPolys | verkle/utils/poly_utils.py:74-88 | dividend = divisor times quotient plus remainder as lists of integers, and the remainder vanishes modulo p from the degree of the divisor on |
| Polynomials.ModPolys | verkle/utils/poly_utils.py:90-91 | with a quotient it gives back the dividend, and it is shorter than the divisor |
| Interpolation.ZPoly | verkle/utils/poly_utils.py:100-107 | the coefficients of the product of X - x over all points |
| Interpolation.VanishingAt | verkle/utils/poly_utils.py:100-107 | that product is zero at every point |
| Interpolation.VanishingElsewhere | verkle/utils/poly_utils.py:100-107 | and nonzero everywhere else |
| Interpolation.QuotientUnique | verkle/utils/poly_utils.py:125 | dividing it by one factor leaves exactly the product of the others |
| Interpolation.LagrangeInterp | verkle/utils/poly_utils.py:117-137 | for any points, a reduced polynomial of that length that has the given value at every point that is not repeated modulo p, and zero at the repeated ones |
| Interpolation.ValueExactly | verkle/utils/poly_utils.py:117-137 | the given value is attained exactly if the point is not repeated or the value is zero |
| Interpolation.RepeatedPoint | verkle/utils/poly_utils.py:117-137 | the same point twice with the value one: the value is not attained |
| Interpolation.DistinctValues | verkle/utils/poly_utils.py:109-137 | for points distinct modulo p all values are the given ones |
| Interpolation.TooManyRoots | verkle/utils/poly_utils.py:109-137 | a polynomial with as many roots as coefficients is zero |
| Interpolation.InterpolantUnique | verkle/utils/poly_utils.py:109-137 | no other polynomial of that length has these values |
| Combinations.PowerSet | verkle/utils/multicombs.py:60-65 | the table holds the sum of every selection at the index of its bits |
| Combinations.Multisubset2 | verkle/utils/multicombs.py:52-79 | the exact subset sums, for any positive partition size |
| Combinations.CombinationDouble | verkle/utils/multicombs.py:97-100 | one bit of all factors: twice the combination of the halves plus a subset sum |
| Combinations.Lincomb | verkle/utils/multicombs.py:83-100 | in any commutative monoid, numbers[i] taken factors[i] times, added up, for any positive partition size |
| PairMerging.MergedSum | verkle/utils/multicombs.py:34-48 | replacing two members of a subset by their sum keeps its sum |
| PairMerging.CountPairs | verkle/utils/multicombs.py:11-17 | for every pair of indices the number of subsets that contain both |
| PairMerging.MostFrequent | verkle/utils/multicombs.py:19-21 | the pairs with the highest counts, highest first, up to the limit |
| PairMerging.MergeRound | verkle/utils/multicombs.py:30-48 | a round keeps all target sums and strictly lowers the total size of the subsets |
| PairMerging.Multisubset | verkle/utils/multicombs.py:5-48 | the exact subset sums for any cutoff, and the rounds suffice whenever the total size is below their number |
| Commitment.ExactOrder | setups/verkle_kzg_setup.py:27-30 | the two assertions on the root imply that its order is exactly the width |
| Commitment.NewSetup | setups/verkle_kzg_setup.py:32-43 | powers, inverses of all distances, and basis polynomials |
| Commitment.GenerateQuotient | verkle/commitment_scheme.py:43-63 | (w^j - w^i) q_j = v_j - v_i for all j, with a vanishing top coefficient |
| Commitment.QuotientTop | verkle/commitment_scheme.py:57-61 | the recovered quotient has no top coefficient |
| Commitment.QuotientIdentity | verkle/commitment_scheme.py:58-62 | (X - w^i) Q(X) + v_i is the committed polynomial, coefficient by coefficient |
| Commitment.QuotientAnywhere | verkle/commitment_scheme.py:43-63 | and so at every point |
| Opening.NewSecret | setups/verkle_kzg_setup.py:45-50 | powers of the secret and values of the basis polynomials in the exponent |
| Opening.LincombExponents | verkle/commitment_scheme.py:41 | the linear combination of exponents as a sum of products |
| Opening.Commit | verkle/commitment_scheme.py:34-41 | the exponent is the value of the recovered polynomial at the secret |
| Opening.BasisCommits | prover/verkle_proof.py:234 | committing to evaluations with the basis is committing to the recovered coefficients |
| Opening.BasisTimesDistance | verifier/verkle_verification.py:174-177 | (X - w^i) L_i is the top coefficient of L_i times X^n - 1 |
| Opening.GenerateProof | prover/verkle_proof.py:167-234 | the proof is the sum of the committed quotients, each times its factor |
| Opening.VerifyProof | verifier/verkle_verification.py:134-183 | an error exactly if a claimed value is above the modulus, which makes a scalar negative; otherwise the loop decides the equation of exponents |
| Opening.VerifierExact | verifier/verkle_verification.py:134-183 | with an honest opening and no value above the modulus it accepts exactly if the weighted differences between committed and claimed values add up to zero |
| Opening.HonestAccepted | verifier/verkle_verification.py:134-183 | an honest proof of true values is accepted exactly if no value is above the modulus, and is an error otherwise |
| Opening.ProveAndVerify | verifier/verkle_verification.py:134-183 | the opening that the prover makes for true claims is accepted exactly if no value is above the modulus |
| Opening.LargeValueRefused | verifier/verkle_verification.py:166-173 | the true claim of a stored value p + 1 is an error for every opening |
| Opening.OneClaimDecides | verifier/verkle_verification.py:166-175 | with one value in doubt it accepts exactly the committed one, unless the factor or the pairing exponent is zero |
| Opening.FalseClaimCaught | verifier/verkle_verification.py:134-183 | however many claims are false: a false claim with a nonzero pairing exponent passes with the honest opening for exactly one residue of its random factor, whatever the other claims and factors are |
| Opening.WeightZero | verifier/verkle_verification.py:166-175 | a claim contributes nothing for any factor exactly if its value is the committed one or its pairing exponent is zero |
| Opening.PairingExponentZero | verifier/verkle_verification.py:174 | the pairing exponent is zero only for a secret that is itself a domain point |
| KeyChunks.GetKeyChunks | tree/verkle_tree.py:233-255 | the chunks of a key, failing unless the width is a power of two; if its exponent divides 256 they are the digits of the key to that base |
| KeyChunks.ChunksIdentify | tree/verkle_tree.py:233-255 | different keys have different chunks exactly if the chunk size divides 256 |
| KeyChunks.LastBitLost | tree/verkle_tree.py:233-255 | otherwise the keys zero and one have the same chunks |
| KeyChunks.KeyFor | tree/verkle_tree.py:233-255 | every list of chunks belongs to a key |
| KeyChunks.ChunksNumber | tree/verkle_tree.py:246-255 | for any chunk size the chunks are the digits of what is above the bits that are left over |
| KeyChunks.ChunksOfWidth256 | tree/verkle_tree.py:233-255 | with 256 children the chunks of a key are its bytes |
| KeyChunks.StemAndSuffix | tree/verkle_tree.py:488-489 | stem and suffix are the digits of the key in their order, the suffix being the last |
| NodeSerialization.SerializeArrayNode | verkle/serialization.py:10-48 | prefix, point, count, one bit per child and the children that are there |
| NodeSerialization.SerializeExtensionNode | verkle/serialization.py:134-155 | prefix, point, stem with its length, child |
| NodeSerialization.DeserializeArrayNode | verkle/serialization.py:202-239 | reads back point and children |
| NodeSerialization.DeserializeExtensionNode | verkle/serialization.py:171-199 | reads back point, stem and child |
| NodeSerialization.DeserializeAnyNode | verkle/serialization.py:242-263 | reads back every node that was serialised, with its type |
| NodeSerialization.EncodesOnce | verkle/serialization.py:242-263 | no data is a serialisation of two nodes |
| NodeSerialization.NodeLayout | verkle/serialization.py:5-48 | the byte form in numbers: types 0, 1 and 2, coordinates behind their lengths, count, bits with the least significant first, children or stem |
| NodeSerialization.ByteLengthLeast | verkle/serialization.py:17-19 | the length of a coordinate is the least that is enough |
| VerkleShape.InsertLookup | tree/verkle_tree.py:480-608 | inserting sets one value and keeps all others |
| VerkleShape.InsertShaped | tree/verkle_tree.py:480-608 | stems always have the length that is left at their depth |
| VerkleShape.SplitLookup | tree/verkle_tree.py:531-570 | splitting a stem keeps the old values and adds the new one |
| VerkleCanonical.InsertTight | tree/verkle_tree.py:480-608 | branches below the root stand only where two stems part |
| VerkleCanonical.SameTree | tree/verkle_tree.py:480-608 | the values determine the tree |
| VerkleTree.ContentsDetermineTree | tree/verkle_tree.py:480-608 | two trees with the same contents have the same root, in whatever order they were filled |
| VerkleTree.VerkleTree.MakeTreeNode | tree/verkle_tree.py:802-829 | reads back the node that was stored under a reference |
| VerkleTree.VerkleTree.StoreNode | tree/verkle_tree.py:788-800 | stores the serialised node under its reference |
| VerkleTree.LinkNode | tree/verkle_tree.py:598-602 | exactly one slot of the parent changes |
| VerkleTree.VerkleTree.PopEntry | tree/verkle_tree.py:577-604 | one step of the commit phase: what is still on the stack becomes what is intended by linking what is above |
| VerkleTree.VerkleTree.CommitStack | tree/verkle_tree.py:576-608 | the stack is taken down and the first entry becomes the root; all its nodes, and all that were stored, can be read back unless another written node has their reference |
| VerkleTree.VerkleTree.Descend | tree/verkle_tree.py:499-520 | follows the stem to an empty slot or to another stem; every lookup in the store succeeds |
| VerkleTree.VerkleTree.FillSlot | tree/verkle_tree.py:504-515 | an extension and a suffix node for an empty slot |
| VerkleTree.VerkleTree.SetLeaf | tree/verkle_tree.py:526-530 | a new value below an equal stem |
| VerkleTree.VerkleTree.SplitStem | tree/verkle_tree.py:531-570 | branches for all common chunks, then one for the old and the new stem |
| VerkleTree.VerkleTree.Insert | tree/verkle_tree.py:480-608 | sets one value in the contents and updates the tree and the root reference; the tree can be read back from the store exactly if no two of its nodes have the same reference; keys of another size change nothing |
| VerkleTree.StoredApart | tree/verkle_tree.py:788-800 | nodes that can all be read back do not share references |
| VerkleTree.VerkleTree.Get | tree/verkle_tree.py:646-679 | the value of the key in the map as a number, none if there is none |
| VerkleTree.VerkleTree.Open | tree/verkle_tree.py:223-231 | a tree opened from its store and root reference has the same contents |
| SharedEntries.SharedExactly | tree/verkle_tree.py:580-596 | commitments to numbers: no two nodes of a tree share a reference exactly if leaves that differ do so as numbers, and stems above equal leaves do |
| SharedEntries.CommittedNumbers | prover/verkle_proof.py:167-234 | the values of a node: those of its slots, and for an extension one, the stem, the reference of its leaves and zeros |
| SharedEntries.SafeContents | tree/verkle_tree.py:580-596 | so it is for values between one and the order of the curve, none of them twice at the same position and none a reference |
| SharedEntries.StemsNotApart | tree/verkle_tree.py:590-595 | a stem and the stem with a zero in front of it above equal leaves cannot both be read back |
| SharedEntries.ShareEntry | tree/verkle_tree.py:521-608 | a value congruent to the present one, or zero where there is none, written below one of two stems with equal leaves, is found below the other as well |
| SharedEntries.LosesData | tree/verkle_tree.py:521-608 | one value below two stems, then zero below the first: a key below the second that was never inserted has the value zero |
| VerkleProof.GetProofTree | tree/verkle_tree.py:750-786 | the commitments of the nodes on the path of a key, without the root, as far as the path goes |
| VerkleProof.StepsFor | prover/verkle_proof.py:182-232 | what is opened on the path of a key that has a value: stem chunk, position two of the extension, suffix |
| VerkleProof.ClaimsFor | verifier/verkle_verification.py:146-166 | the claims about the path, with positions found from the number of commitments; an error if the stem is too short |
| VerkleProof.Prove | prover/verkle_proof.py:167-234 | the commitments for all keys and the opening of all their steps |
| VerkleProof.Verify | verifier/verkle_verification.py:134-183 | the outcome for all claims about all keys |
| VerkleProof.AllTrue | verifier/verkle_verification.py:146-175 | for keys that have a value all claims are true, since references are hashed commitments; none is above the modulus exactly if the values are not |
| VerkleProof.ProveAndVerify | verifier/verkle_verification.py:134-183 | the proof of keys of a tree is accepted for the values that get returns exactly if none of these is above the modulus |
| Nibbles.BytesToDigits | merkle/nibble_path.py:190-204 | the digits of all bytes, most significant first |
| Nibbles.DigitsInjective | merkle/nibble_path.py:190-204 | byte strings of one length with the same digits are the same |
| Nibbles.DigitsNumber | merkle/nibble_path.py:190-204 | the digits are those of the number that the bytes stand for, for every width |
| Nibbles.HexPrefixDecodes | merkle/nibble_path.py:83-88 | flags and digits can be read off the hex-prefix form |
| Nibbles.HexPrefixDigits | merkle/nibble_path.py:140-161 | the hex-prefix form of Appendix C of the Ethereum Yellow Paper: first digit 0 to 3, a zero before an even number of digits, the digits |
| Nibbles.ExtendedLayout | merkle/nibble_path.py:163-167 | the extended form in numbers: 255, type, width, length in four bytes, digits |
| Nibbles.DecodedFlags | merkle/nibble_path.py:83-88 | what the bits of the first byte say to the decoder |
| Nibbles.NibblePath.Encode | merkle/nibble_path.py:132-167 | hex-prefix form for width 16, extended form otherwise |
| Nibbles.DecodeWithType | merkle/nibble_path.py:61-88 | the path and type that a byte string stands for, or none where the code raises |
| Nibbles.DecodesHexPrefix | merkle/nibble_path.py:83-88 | decoding undoes the hex-prefix form |
| Nibbles.DecodesExtended | merkle/nibble_path.py:67-81 | decoding undoes the extended form |
| Nibbles.NibblePath.Equals | merkle/nibble_path.py:51-59 | whether the remaining digits are the same |
| Nibbles.NibblePath.StartsWith | merkle/nibble_path.py:95-104 | whether the other path is a prefix |
| Nibbles.NibblePath.Consume | merkle/nibble_path.py:111-114 | the path loses digits in front, in place |
| Nibbles.NibblePath.CommonPrefix | merkle/nibble_path.py:121-130 | the longest common beginning as a path of its own |
| Nibbles.NibblePath.Combine | merkle/nibble_path.py:185-188 | both paths, one after the other |
| TrieNodes.ZkEncodeLeaf | zkSNARK/zk_encoder_decoder.py:112-122 | the aligned form of a leaf, fields longer than their size unpadded |
| TrieNodes.ZkEncodeExtension | zkSNARK/zk_encoder_decoder.py:124-131 | the aligned form of an extension, fields longer than their size unpadded |
| TrieNodes.ZkEncodeBranch | zkSNARK/zk_encoder_decoder.py:133-141 | the aligned form of a branch, zeros for absent children, fields longer than their size unpadded |
| TrieNodes.ZkDecode | zkSNARK/zk_encoder_decoder.py:145-179 | undoes the aligned form of every node whose parts fit and whose references are not zero |
| TrieNodes.ZkLayout | zkSNARK/zk_encoder_decoder.py:110-143 | the aligned form in numbers: types 1, 2 and 3, and at which byte which field stands |
| RlpNodes.EncodeNode | merkle/node.py:42-61 | the list of byte strings for a node: hex-prefix path and data or reference, or all children and data |
| RlpNodes.DecodeNode | merkle/node.py:63-81 | the node that a list stands for, or none where the code raises |
| RlpNodes.DecodesNode | merkle/node.py:63-81 | decoding undoes the encoding of every node whose references are absent or hashes |
| RlpNodes.ListForm | merkle/node.py:42-61 | two items for a leaf or an extension, told apart by the first digit of the path; an item for every child and one for the data for a branch |
| TrieShape.InsertShaped | tree/merkle_tree.py:273-402 | extensions lead to branches, branches are not empty |
| TrieShape.InsertView | tree/merkle_tree.py:273-402 | inserting sets one value and keeps all others, for paths of any length; a new branch has the empty value and branches stay |
| TrieShape.GotExactly | tree/merkle_tree.py:242-271 | a lookup finds what is stored; besides, it takes a leaf for its own whose path has not been used up |
| TrieShape.Continued | tree/merkle_tree.py:273-402 | a path that ends at a node of the trie can be continued to a leaf |
| TrieCanonical.InsertTight | tree/merkle_tree.py:273-402 | insertion keeps branches exactly where keys part and extensions at what keys have in common |
| TrieCanonical.SameTrie | tree/merkle_tree.py:273-402 | so the keys and their values determine the trie |
| TrieCanonical.BranchExactly | tree/merkle_tree.py:242-271 | a path ends at a branch exactly where two keys part |
| MerkleTrie.MerklePatriciaTrie.Update | tree/merkle_tree.py:273-357 | returns the reference of the updated subtrie; all its nodes are stored and nothing is lost |
| MerkleTrie.MerklePatriciaTrie.UpdateLeaf | tree/merkle_tree.py:285-308 | same path: new value; otherwise split |
| MerkleTrie.MerklePatriciaTrie.UpdateExtension | tree/merkle_tree.py:311-340 | below the extension, or split |
| MerkleTrie.MerklePatriciaTrie.SplitExtension | tree/merkle_tree.py:320-340 | extension for the common part, branch, leaf or value for the new path, and what is left of the old extension |
| MerkleTrie.MerklePatriciaTrie.UpdateBranch | tree/merkle_tree.py:343-354 | the value of the branch for an exhausted path; otherwise one child is updated and its reference replaced |
| MerkleTrie.MerklePatriciaTrie.CreateBranchNode | tree/merkle_tree.py:359-378 | a branch with two leaves, or with one leaf and the value of the empty path |
| MerkleTrie.MerklePatriciaTrie.CreateBranchExtension | tree/merkle_tree.py:390-402 | what is left of an extension, or its child when nothing is left |
| MerkleTrie.MerklePatriciaTrie.StoreNode | tree/merkle_tree.py:415-426 | stores the encoded node under its hash; in keccak mode a node shorter than a hash is its own reference and is not stored |
| MerkleTrie.AfterRepresents | tree/merkle_tree.py:273-357 | keys of any length: the last value of every inserted key, and the empty value at branches without one |
| MerkleTrie.ContentsDetermineTrie | tree/merkle_tree.py:273-402 | tries for the same contents are the same, in whatever order the keys were inserted |
| MerkleTrie.ContentsDetermineRoot | tree/merkle_tree.py:56-81 | tries with the same contents have the same root reference |
| MerkleTrie.AbsentExactly | tree/merkle_tree.py:242-271 | a key without a value has the empty value exactly if two keys part at its end |
| MerkleTrie.MerklePatriciaTrie.Insert | tree/merkle_tree.py:56-81 | refines the update of a map in both modes, for keys of any length, and keeps branches exactly where keys part |
| MerkleTrie.MerklePatriciaTrie.Get | tree/merkle_tree.py:83-107 | the value of the key in the map; for a key without one exactly the data of the leaf or branch at which its path ends, and none, where the code raises KeyError, if there is no such node; never so among keys of one length |
| MerkleTrie.OneLength | tree/merkle_tree.py:242-271 | among keys of one length the path of a key without a value ends at no node |
| MerkleTrie.MerklePatriciaTrie.GetFrom | tree/merkle_tree.py:242-271 | the node at which a path ends, or the leaf with the rest of it |
| MerkleTrie.MerklePatriciaTrie.GetProofTree | tree/merkle_tree.py:109-210 | the encoded nodes on the path, exactly for keys that have a value or whose path ends at a branch |
| MerkleTrie.PoseidonGood | tree/merkle_tree.py:415-426 | with keys of at most 32 and values of at most 96 bytes every node can be stored and read back, if no hash is zero |
| MerkleTrie.KeccakGood | merkle/node.py:83-95 | in keccak mode every node can be stored and read back if encodings are not shorter than hashes |
| MerkleProof.VerifySingleProof | verifier/merkle_verification.py:44-145 | decides whether the list of nodes leads along the key to the value |
| MerkleProof.VerifyProof | verifier/merkle_verification.py:13-42 | accepts a batch exactly if the root matches and each proof is accepted |
| MerkleProof.ProofWalks | tree/merkle_tree.py:109-210 | the proof of the trie begins with its root and leads to the stored value |
| MerkleProof.WalksSound | verifier/merkle_verification.py:68-145 | a list that begins with the root leads to no value but the stored one |
| MerkleProof.VerificationExact | verifier/merkle_verification.py:44-145 | a list whose first node is hashed is accepted only for what is at the end of the path, and the proof that the trie makes for it is accepted |
| MerkleProof.ContentsAccepted | verifier/merkle_verification.py:44-145 | in terms of the contents: only the value of the key, or the empty value for a key without one whose path ends at a branch |
| MerkleProof.FirstNodeExact | verifier/merkle_verification.py:56-66 | accepted exactly if the list leads to the value and its first node is the root or too short to be hashed |
| MerkleProof.RootIgnored | verifier/merkle_verification.py:60-66 | with a first node too short to be hashed the result does not depend on the root |
| MerkleProof.ShortLeafAccepted | verifier/merkle_verification.py:60-66 | a single short leaf with the path of the key and any value is accepted for every root |

## Left out

### circom
- Threads: clusters are simplified one after another; they share no signal, so the order does not matter.
- Substitution strategies 1 and 2, the debug checks and `fast_encoded_substitution_substitution` are not reached from the pass.
- Division, integer division, powers, shifts, bit and boolean operations of expressions: the pass does not use them.
- Capacity hints, timing output, the JSON writer of substitutions (the log is returned as a list) and the count of deleted private inputs.
- Compression of constraints inside `ConstraintStorage`: constraints are stored as they are.
- Sharing and signal offsets in the component graph: every component occurrence carries its own constraints.
- `non_linear_simplification::simplify`, which returns an empty list, and `remove_unused`, which is constant.
- Modular inverse: the foreign one is replaced by an extended Euclid of the same result.
- `HashMap` iteration is an arbitrary choice throughout, so all results hold for every order.
- Field.Inverse: does not model division by zero, which the source reports as an error or a panic.
- R1CS: UTF-8 decoding of gate names (names are bytes), short writes and file errors; the effect on later sections of numbers that do not fit their fields (`R1csWriter.BigintAsBytes` has their own bytes).
- The five section structures of the R1CS writer are one class with the index as a field.
- The other writers (JSON, symbols) and everything before the constraint list in the compiler.

### Verkle
- Curve points and pairings are represented by their exponents; the multiplication of a point by a negative scalar, whose recursion in the curve library does not end, is an error; compression of nodes, files, random factors and the pairing library are not part of this model.
- `pow(x, k, m)` is the power reduced once; the logarithms that choose partition size and cutoff are parameters, and the results hold for every value of them.
- Fourier.FftInto: does not model lists longer than the order of the root, which the code does not reject.
- VerkleTree.VerkleTree.Insert: values have 32 bytes; shorter or longer ones, which the serialisation would not read back, are left out.
- Opening.GenerateProof: takes the steps of a path as a list; `VerkleProof.Prove` derives them from the tree.
- VerkleProof.ProveAndVerify: keys without a value, for which the prover fails or proves nothing, are left out; widths below four have no place for the values of an extension.
- SharedEntries.SafeContents: supposes that no reference is zero or one and that different numbers have different references among the nodes of the tree.
- VerkleProof.StepsFor: keys without a value are left out, as for `VerkleProof.ProveAndVerify`.
- VerkleProof.Prove: keys without a value are left out, as for `VerkleProof.ProveAndVerify`.
- A node whose values are all zero (leaves of which the only value consists of 32 zero bytes) commits to the neutral point, which the curve library normalises to (0, 0); commitments as exponents, on which `VerkleProof.ProveAndVerify` rests, do not show this point apart from others.
- Proof sizes, `mul_polys` and `shift_domain` of the transform module, and the special interpolations for two and four points.

### Merkle Patricia trie
- RLP and the hash functions are foreign: an encoder and decoder of lists of byte strings that undo each other, and a hash without collisions among the nodes concerned. An RLP byte string that is no list is taken for no node.
- MerkleTrie.MerklePatriciaTrie.Insert: nodes shorter than 32 bytes in keccak mode are excluded, as they are referred to inline but only looked up in the store (tree/merkle_tree.py:233-239); `StoreNode` shows what happens to them.
- MerkleTrie.MerklePatriciaTrie.Update: excludes the same short nodes.
- MerkleTrie.MerklePatriciaTrie.UpdateLeaf: excludes the same short nodes.
- MerkleTrie.MerklePatriciaTrie.UpdateExtension: excludes the same short nodes.
- MerkleTrie.MerklePatriciaTrie.SplitExtension: excludes the same short nodes.
- MerkleTrie.MerklePatriciaTrie.UpdateBranch: excludes the same short nodes.
- MerkleTrie.MerklePatriciaTrie.CreateBranchNode: excludes the same short nodes.
- MerkleTrie.MerklePatriciaTrie.CreateBranchExtension: excludes the same short nodes.
- MerkleProof.ContentsAccepted: supposes a first node of at least 32 bytes, as does `VerificationExact`.
- MerkleProof.VerificationExact: supposes a first node of at least 32 bytes; `FirstNodeExact` has the other case.
- TrieNodes.ZkDecode: undoes the aligned form of nodes whose parts fit; what it makes of longer parts is left out.
- Secure mode, in which keys are hashed first, and proof sizes.
- Paths other than width 16 appear in encoding and decoding only; the trie uses width 16.
