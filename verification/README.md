# Updatable private set operations: a verified model

The repository implements private set intersection and union with updates. This project models
the mathematics that makes its protocols correct, and proves it for all inputs, all runs and all
message exchanges. The modules follow the program's components.

**The Paxos OKVS.** Keys become sparse rows with a dense part. `WeightBuckets` models the
intrusive bucket lists, `PaxosState` the solver object with `SetInput` and `Triangulate`,
`Triangulation` what a triangulation is, `FcInverse` the symbolic elimination of the gap rows,
`GaussJordan` the two matrix inversions, `Combination` the unranking of column choices,
`Decoding`, `OkvsTheory`, `Backfill` and `BackfillBinary` the back substitution. The end result
is that encoding makes every key decode to its value, with the GF128 and with the Binary dense
type, and exactly when it succeeds: always if the rows can be peeled away, and otherwise as the
gap that is left decides. All of it is proved over `Algebra.Space`, scalars that act on values under
stated laws; `BitPolynomials`, `Galois128` and `Instances` show that the repository's GF(2^128)
and the bits satisfy these laws. `FiniteField` shows that the words are a field, so that its
inversion never fails on a non-zero word; for this `MachineWords` and `Frobenius` compute 128
squares of x. `RowBuilding` covers how hashes become rows, `Binning`, `Baxos` and
`BatchedDecoding` the binned form on several threads.

**The IBLT union.** `PeelingSpec` defines plain set peeling, `IbltTable` the table, `PsuSlots`
the masked transfers of one probe, and `IbltPsu` the two parties with their messages. A run of
the two parties refines peeling of the union.

**The protocols on top.** `MaskedDecoding`, `Rr22` and `RsOprf` use linearity of decoding under
a VOLE correlation. `Upsu`, `UpsuSteps` and `UpsuRound` model the updatable union, `Upsi` the
updatable intersection, `Interpolation` and `Krtw` the batched union.

`Lists` and `Arithmetic` hold facts that several modules share.

Code that updates state is modelled by classes and methods with loops; each is tied to a function
or predicate about which the theorems are stated. Oblivious transfer, OPRF, AES and curve points
are ideal: transfers deliver what the choice selects, and keyed functions have no accidental
matches on the finitely many values a run uses. These assumptions are explicit predicates
(`NoAccidents`, `Lucky`, `NoFalseMatch`, `NoAccident`).

The proofs turned up six places where the code does less than its comments or callers suggest.
Each has a lemma with a concrete input or an exact condition:

- The search for a pivot in the GF128 inversion accepts only ones, so an empty result does not
  mean that the matrix is singular. `GaussJordan.EmptyIff` gives the exact condition, and
  `Instances.PivotMissedOverGf128` a two by two matrix over GF128.
- The chunked transfer in the OPRF receiver sends the masked vector correctly exactly if it is
  shorter than two chunks of 2^28 blocks (`RsOprf.ChunksArriveIff`, `RsOprf.TwoChunksLost`).
- A decoder that is told to add to what is there overwrites it when there is a single bin
  (`BatchedDecoding.OneBinDoesNotAdd`).
- The padding of the union's deletion phase can read past the last dummy when a party deletes
  elements only its peer holds, a case the comments mention; `UpsuRound.PoolLastsIff` says exactly
  when (`UpsuRound.PeerDeletionExhausts`, `UpsuRound.Round`).
- With insertions before deletions, an element that a party adds and deletes in one round stays
  in the stored intersection (`Upsi.UpdateIsExactIff`, `Upsi.StaleAdditionStays`).
- The batched union loses elements exactly if a sender's bin holds more than 64 and the receiver
  does not hold what is cut (`Krtw.UnionIsCompleteIff`, `Krtw.OverfullBinLoses`).

Check the whole project with `dafny verify dfyconfig.toml`.

## Model

| member | source | states |
|---|---|---|
| WeightBuckets.ListsPartitionLive | psu/iblt_based_psu/volePSI/PxUtil.h:397-424 | in a linked structure every live column is met exactly once, walking the list of its own weight, and a list holds only columns of its weight |
| WeightBuckets.OnItsList | psu/iblt_based_psu/volePSI/PxUtil.h:397-424 | walking from the head of its weight reaches every live column |
| WeightBuckets.UnlinkKeepsLinked | psu/iblt_based_psu/volePSI/PxUtil.h:276-313 | the writes of a removal keep all remaining columns doubly linked with consistent heads |
| WeightBuckets.LinkKeepsLinked | psu/iblt_based_psu/volePSI/PxUtil.h:262-273 | the writes of an insertion keep all columns doubly linked with consistent heads |
| WeightBuckets.WeightData.PushNode | psu/iblt_based_psu/volePSI/PxUtil.h:252-273 | adds the column to the list of its weight, growing the table of heads if needed, and changes no weight |
| WeightBuckets.WeightData.PopNode | psu/iblt_based_psu/volePSI/PxUtil.h:276-313 | takes the column out, for every position in its list, as long as another live column remains |
| WeightBuckets.WeightData.TrimSets | psu/iblt_based_psu/volePSI/PxUtil.h:284-285 | popping empty heads off the end stops before the front while some column is live, and leaves a non-empty last list |
| WeightBuckets.WeightData.DecrementWeight | psu/iblt_based_psu/volePSI/PxUtil.h:316-322 | moves the column to the list one below and changes no other weight |
| WeightBuckets.WeightData.GetMinWeightNode | psu/iblt_based_psu/volePSI/PxUtil.h:325-337 | returns a live column of least positive weight |
| WeightBuckets.WeightData.Init | psu/iblt_based_psu/volePSI/PxUtil.h:341-393 | links every column under its weight; it fails exactly if some weight is 200 or more |
| PaxosState.TotalWeight | psu/iblt_based_psu/volePSI/PaxosImpl.h:2235-2292 | the column weights of rows of a fixed weight add up to the size of the backing |
| PaxosState.Paxos.SetInput | psu/iblt_based_psu/volePSI/PaxosImpl.h:985-1010 | counts, lays out and buckets the columns; on success the object is valid and ready; the error is a size error exactly for wrong sizes, and a weight error exactly if some column has 200 rows or more |
| PaxosState.LightIff | psu/iblt_based_psu/volePSI/PaxosImpl.h:985-1010 | the bound in terms of the rows: no column is contained in 200 rows or more |
| PaxosState.Paxos.RebuildColumns | psu/iblt_based_psu/volePSI/PaxosImpl.h:2235-2292 | every column lists exactly its rows in increasing order, and the columns fill the backing |
| Triangulation.RowsWithIncrease | psu/iblt_based_psu/volePSI/PaxosImpl.h:2235-2292 | the rows listed for a column increase strictly |
| PaxosState.AppendKeepsLaid | psu/iblt_based_psu/volePSI/PaxosImpl.h:2235-2292 | appending to one column touches no other column of the shared backing |
| PaxosState.Paxos.DecrementRow | psu/iblt_based_psu/volePSI/PaxosImpl.h:1124-1149 | after a row is set, the weight of every column still in the lists is again its number of unset rows |
| PaxosState.Paxos.FixColumn | psu/iblt_based_psu/volePSI/PaxosImpl.h:1114-1178 | the first row of the column that is left becomes its main row and the later ones, in order, its gap rows; it fails exactly on a row that repeats the dense part of the first one left, and the error names these two, the earliest such row |
| PaxosState.Paxos.TakeColumn | psu/iblt_based_psu/volePSI/PaxosImpl.h:1108-1112 | the popped column has a row left, and no column with rows left has fewer, so the pass makes progress |
| PaxosState.Paxos.Triangulate | psu/iblt_based_psu/volePSI/PaxosImpl.h:1087-1182 | terminates; on success main and gap rows partition all rows, main columns and the bucket of weight zero partition all columns, main column k is in no row selected after step k, and the result is what taking columns of least weight leads to, with no gap row that has the dense part of its main row; the gap is empty exactly if the rows have no core; it fails only when the pass by least weight reaches a column in which a later row repeats the dense part of the first one left, and names these two |
| Triangulation.AddMain | psu/iblt_based_psu/volePSI/PaxosImpl.h:1151-1159 | one more main row and column keep the partial triangle |
| Triangulation.AddGap | psu/iblt_based_psu/volePSI/PaxosImpl.h:1160-1173 | one more gap row, paired with the main row of its column, keeps the partial triangle |
| Triangulation.LeastIsCore | psu/iblt_based_psu/volePSI/PaxosImpl.h:1108-1178 | if even the column of least weight has two rows left, the rows have a core: a set of rows in which every column occurs at least twice |
| Triangulation.CoreHasGap | psu/iblt_based_psu/volePSI/PaxosImpl.h:1087-1182 | no triangulation of rows with a core has an empty gap, in whatever order columns are taken |
| Triangulation.TakenTogether | psu/iblt_based_psu/volePSI/PaxosImpl.h:1108-1178 | two rows with the same columns are taken in one step: one of them is the main row of the other, or both are gap rows of one column |
| FcInverse.LowerTriangular | psu/iblt_based_psu/volePSI/PaxosImpl.h:2362-2368 | the inner assertion of the elimination: every mapped column of a main row is at most its own |
| FcInverse.TopCancelled | psu/iblt_based_psu/volePSI/PaxosImpl.h:2348-2380 | the outer assertion: adding the main row removes the current greatest column, and the greatest column strictly decreases |
| FcInverse.GetFCInv | psu/iblt_based_psu/volePSI/PaxosImpl.h:2295-2385 | terminates, and the exclusive-or of every gap row with its listed main rows is zero on all main columns, in the shortcut for equal rows and in the general case |
| FcInverse.DuplicateClears | psu/iblt_based_psu/volePSI/PaxosImpl.h:2312-2321 | a gap row equal to its paired main row is cleared by that row alone |
| FcInverse.SameCombination | psu/iblt_based_psu/volePSI/PaxosImpl.h:2295-2385 | which main rows clear a gap row is determined by the triangle: for two gap rows with the same columns the same main rows occur an odd number of times |
| GaussJordan.SwapKeepsSolutions | psu/iblt_based_psu/volePSI/PaxosImpl.h:76-101 | swapping two rows of both matrices keeps the solutions of M v = R w for all v and w |
| GaussJordan.ScaleKeepsSolutions | psu/iblt_based_psu/volePSI/PaxosImpl.h:108-116 | scaling a row of both matrices by a scalar with an inverse keeps the solutions |
| GaussJordan.AddKeepsSolutions | psu/iblt_based_psu/volePSI/PaxosImpl.h:118-130 | adding a multiple of one row to another in both matrices keeps the solutions |
| GaussJordan.ReducedIsInverse | psu/iblt_based_psu/volePSI/PaxosImpl.h:63-133 | when the left matrix has become the identity, the right one inverts the original on both sides |
| GaussJordan.StuckIsSingular | rr22/okvs/dense_mtx.cc:97-132 | a column without a non-zero entry on or below the diagonal, reached by row operations, proves the original matrix singular |
| GaussJordan.InvertGf128 | psu/iblt_based_psu/volePSI/PaxosImpl.h:63-133 | a returned matrix solves M v = w by v = R w for every right-hand side; the result is empty for want of a pivot exactly if the elimination reaches a column with zero on the diagonal and no one below it, and for a failed inversion check exactly if it reaches a pivot whose inverse is not found |
| GaussJordan.EliminatedState | psu/iblt_based_psu/volePSI/PaxosImpl.h:63-133 | whatever the elimination reaches before a column has the solutions of the original system, and the columns before it are those of the identity |
| GaussJordan.EmptyIff | psu/iblt_based_psu/volePSI/PaxosImpl.h:63-133 | the exact condition: the result is empty if and only if the matrix is singular, or some reached column has zero on the diagonal, a non-zero entry below it and no one below it, or an inversion check fails; the last is impossible in a field, and `FiniteField.Gf128IsField` shows that GF128 is one |
| GaussJordan.EqualRowsStop | psu/iblt_based_psu/volePSI/PaxosImpl.h:63-133 | a matrix that repeats a row is never inverted |
| GaussJordan.PivotMissed | psu/iblt_based_psu/volePSI/PaxosImpl.h:76-101 | the empty result does not mean singular: for every invertible scalar other than one a two by two matrix has an inverse and is rejected at its first column |
| Instances.PivotMissedOverGf128 | psu/iblt_based_psu/volePSI/PaxosImpl.h:76-101 | over GF128 itself the invertible matrix with rows (0, 1) and (x, 0) is reported as having no inverse |
| GaussJordan.InvertBits | rr22/okvs/dense_mtx.cc:97-132 | over bits the result is a two-sided inverse, and it is empty exactly for singular matrices |
| Decoding.DecodePlus | psu/iblt_based_psu/volePSI/PaxosImpl.h:2191-2232 | decoding is additive in the OKVS vector |
| Decoding.DecodeAct | psu/iblt_based_psu/volePSI/PaxosImpl.h:2191-2232 | decoding commutes with multiplying the vector by a scalar |
| Decoding.Decode1Gf128 | psu/iblt_based_psu/volePSI/PaxosImpl.h:2191-2232 | the loop with a running power computes the inner product with the sparse columns and the powers of the dense part |
| Decoding.Decode1Binary | psu/iblt_based_psu/volePSI/PaxosImpl.h:2191-2232 | the loop over the bits of the dense part computes the inner product |
| OkvsTheory.System.SumDecodesSplits | psu/iblt_based_psu/volePSI/PaxosImpl.h:1581-1618 | the sum of the decoded values of a list of rows is the sum of the columns met an odd number of times plus the dense part |
| OkvsTheory.System.GapRowSolved | psu/iblt_based_psu/volePSI/PaxosImpl.h:1576-1645 | if the dense part solves the eliminated gap equation and the main rows are solved, the original gap row is solved |
| OkvsTheory.System.StepSolved | psu/iblt_based_psu/volePSI/PaxosImpl.h:1711-1737 | one back substitution solves its main row and spoils no row solved before |
| Backfill.DensePartSolvesGap | psu/iblt_based_psu/volePSI/PaxosImpl.h:1629-1644 | the entries computed with the inverse of the gap matrix solve every eliminated gap equation |
| Backfill.AllRowsSolved | psu/iblt_based_psu/volePSI/PaxosImpl.h:1558-1739 | solved main rows and a solved dense part make every key decode to its value, gap rows included |
| Backfill.BackSubstituteGf128 | psu/iblt_based_psu/volePSI/PaxosImpl.h:1652-1737 | walking the main rows backwards solves all of them without touching the dense entries |
| Backfill.SolveGapGf128 | psu/iblt_based_psu/volePSI/PaxosImpl.h:1573-1645 | the dense entries solve the gap exactly if the elimination of the gap matrix of the computed lists goes through; otherwise the error tells how it stopped |
| Backfill.GapSolvedIff | psu/iblt_based_psu/volePSI/PaxosImpl.h:1573-1645 | a gap that fits is solved exactly if the gap matrix is invertible and its elimination neither overlooks a pivot nor fails an inversion check |
| Backfill.EncodeGf128 | psu/iblt_based_psu/volePSI/PaxosImpl.h:1186-1216 | on success every key decodes to its value; it succeeds exactly if the output has the right size, the pass by least weight meets no column with a repetition of the dense part of its first row, the gap of the computed triangle fits the dense part and its gap matrix is eliminated; each error is that of the first of these that fails, and rows without a core always succeed |
| Backfill.EPrimeOfTriangle | psu/iblt_based_psu/volePSI/PaxosImpl.h:1573-1645 | the gap matrix depends on the triangle alone, whatever lists of main rows clear the gap rows |
| Backfill.RepeatedKeyFails | psu/iblt_based_psu/volePSI/PaxosImpl.h:1186-1216 | two keys with the same row and dense part never encode, even when triangulation does not compare them: the gap matrix then repeats a row |
| Backfill.EncodesIff | psu/iblt_based_psu/volePSI/PaxosImpl.h:1186-1216 | where the dense part determines the row, as for rows hashed from keys, an encoding succeeds exactly if no dense part is repeated and the gap is solved |
| BackfillBinary.GetGapCols | rr22/okvs/paxos.cc:1044-1080 | returns the first choice of dense columns, by rank, on which the gap matrix is invertible, and fails only if every choice leaves it singular |
| BackfillBinary.GapSolvedIffBits | psu/iblt_based_psu/volePSI/PaxosImpl.h:1424-1555 | a gap is too large exactly beyond the limit, and one within it is solved exactly if some choice of as many dense columns makes its matrix invertible |
| BackfillBinary.GetEPrime | rr22/okvs/paxos.cc:1130-1152 | the gap matrix is the chosen columns of the gap rows plus their eliminated main rows |
| BackfillBinary.GetX2Prime | rr22/okvs/paxos.cc:1083-1127 | the right-hand side is each gap value plus the values of its eliminated main rows |
| BackfillBinary.BackSubstituteBinary | psu/iblt_based_psu/volePSI/PaxosImpl.h:1500-1554 | walking the main rows backwards solves all of them when dense entries are masked by bits |
| BackfillBinary.EncodeBinary | psu/iblt_based_psu/volePSI/PaxosImpl.h:1424-1555 | on success every key decodes to its value; it succeeds exactly if the output has the right size, the pass by least weight meets no column with a repetition of the dense part of its first row, the gap of the computed triangle is within the limit and, unless it is empty, some choice of as many dense columns makes its gap matrix invertible; a gap beyond the limit is the only one reported as too large; rows without a core always succeed |
| BackfillBinary.EncodesIffBits | psu/iblt_based_psu/volePSI/PaxosImpl.h:1424-1555 | where the dense part determines the row, success is exactly that no dense part is repeated and the gap is empty, or within the limit with some choice of dense columns on which its matrix is invertible |
| Combination.Choose | rr22/okvs/paxos.cc:166-169 | the recursive quotient is exactly the binomial coefficient |
| Combination.RankInjective | rr22/okvs/paxos.cc:120-158 | different increasing subsets have different positions |
| Combination.RankBound | rr22/okvs/paxos.cc:120-158 | the position of a k-subset of the first n numbers is below C(n, k) |
| Combination.StepDown | rr22/okvs/paxos.cc:147-153 | both divisions of the inner update are exact |
| Combination.IthCombination | rr22/okvs/paxos.cc:120-164 | for an index below C(n, k) the result is an increasing k-subset whose position is the index, so every subset is tried once |
| PeelingSpec.Hashing.RoundStep | psu/iblt_based_psu/psu.cc:1269-1396 | probing only the unmarked bins of newly peeled items keeps the claim that every pure bin of the remaining union is probed next |
| PeelingSpec.Hashing.NewlyPure | psu/iblt_based_psu/psu.cc:1269-1396 | a bin that becomes pure is a bin of some item that was just removed |
| PeelingSpec.Hashing.RoundsEnd | psu/iblt_based_psu/psu.cc:1269-1396 | without probes left the remaining union has no pure bin and contains every subset without one |
| IbltTable.Iblt.AddItem | psu/iblt_based_psu/iblt_h5.cc:100-113 | adds one to the counts of the five bins of the item and the item to their sums, with the seed where seeds are kept, and touches no other bin |
| IbltTable.Iblt.RemoveItem | psu/iblt_based_psu/iblt_h5.cc:115-130 | takes the item out of the sums of its five bins and one off their counts, which stop at zero, and touches no other bin |
| IbltTable.Iblt.AddAll | psu/iblt_based_psu/iblt_h5.cc:132-155 | the table of an empty set becomes that of the whole list: counts, sums and seed sums of every bin are those of its items |
| IbltTable.Iblt.RemoveOne | psu/iblt_based_psu/iblt_h5.cc:115-130 | removing a held item leaves the table of the smaller set, so the guarded decrement never saturates |
| IbltTable.Iblt.UniqueHashEvals | psu/iblt_based_psu/iblt_h5.cc:176-203 | collects every unmarked bin of the items once, in the order of first appearance |
| IbltTable.UniqueEvalsMeaning | psu/iblt_based_psu/iblt_h5.cc:176-203 | the collected bins are exactly the unmarked bins of the items, without repetition |
| IbltTable.UniqueEvalsOrder | psu/iblt_based_psu/iblt_h5.cc:176-203 | the collected bins are in the order in which they occur first among the bins of the items |
| PsuSlots.TransferOne | psu/iblt_based_psu/psu.cc:705-717 | the first masked transfer gives the sender what its choice selects: the single item of the peer, or nothing |
| PsuSlots.TransferTwo | psu/iblt_based_psu/psu.cc:737-757 | the double transfer gives the receiver the sum, the check value, or nothing it can use, by its own count |
| PsuSlots.TableView | psu/iblt_based_psu/psu.cc:1192-1240 | count and sum of a bin tell an empty, a single and a crowded bin apart in terms of the unpeeled items |
| PsuSlots.OutcomeIsPure | psu/iblt_based_psu/psu.cc:1192-1240 | without accidents the receiver concludes an item for a bin exactly if the bin is pure in the remaining union, and concludes that item |
| IbltPsu.Sender.CompUVector | psu/iblt_based_psu/psu.cc:524-582 | the check values: an evaluation of the single item, of the received item, or fresh noise |
| IbltPsu.Receiver.Process | psu/iblt_based_psu/psu.cc:1192-1246 | the receiver peels exactly the items alone in a probed bin, in the order in which the probes find them, marks exactly these bins, and remembers its own items with their seeds |
| IbltPsu.ConclusionIsPure | psu/iblt_based_psu/psu.cc:1192-1240 | the messages of both parties make every conclusion about a probe the one about the union |
| IbltPsu.Exchange | psu/iblt_based_psu/psu.cc:933-1266 | the messages of one round lead the receiver to exactly the pure bins and keep the supply of correlations in step |
| IbltPsu.Settle | psu/iblt_based_psu/psu.cc:1044-1067 | the sender adopts items and bins, and both tables become those of the unpeeled own items |
| IbltPsu.ChooseProbes | psu/iblt_based_psu/psu.cc:1269-1396 | both parties compute the same next probes |
| IbltPsu.Advance | psu/iblt_based_psu/psu.cc:1269-1396 | a round of messages is a round of plain peeling, the number of peeled items grows by the items found, and at most five probes follow per item |
| IbltPsu.Round | psu/iblt_based_psu/psu.cc:1269-1396 | one round keeps both parties in step and refines one round of plain peeling |
| IbltPsu.WithinBudget | psu/iblt_based_psu/psu.h:25-31 | the transfers used so far and the next probes stay within the table length plus five per item |
| IbltPsu.Run | psu/iblt_based_psu/psu.cc:1269-1396 | both parties end with the same items: the union without its largest subset that has no pure bin; the transfers stay within budget and the rounds are at most the items plus one |
| Upsu.StripRaised | examples/upsu/upsu.cc:55-67 | raising a point to a key and stripping the key gives back the exponent |
| Upsu.RaisedAgainMoves | examples/upsu/upsu.cc:371-380 | raising a doubly keyed point once more changes it, for any key but one |
| UpsuSteps.Mroprf | examples/upsu/upsu.cc:135-207 | the blinded exchange leaves the receiver with its inputs under the sender's key, one for each |
| UpsuSteps.Dedupe | examples/upsu/upsu.cc:357-364 | the two lists are joined without repetition and in order |
| UpsuSteps.Pad | examples/upsu/upsu.cc:365-380 | pads to the fixed size without repeating a point; it stays in range exactly if the padding needs at most twice the dummies |
| UpsuSteps.PsiCommon | examples/upsu/upsu.cc:351-390 | padding never meets: the intersection of both lists is the intersection of what both parties entered |
| UpsuSteps.UnhashPRFSet | examples/upsu/upsu.cc:238-249 | hashes of some of the original points map back to these points, if no two of the given finite set of points collide |
| UpsuRound.OffersMeetInDeleted | examples/upsu/upsu.cc:308-479 | the two entered sets meet exactly in what leaves the union; with both additions the rest is the union of the updated sets, also when one party adds what the other deletes |
| UpsuRound.OwnDeletionsLast | examples/upsu/upsu.cc:365-380 | deleting only own elements never exhausts the dummies |
| UpsuRound.PoolLastsIff | examples/upsu/upsu.cc:353-380 | the exact condition: the deletions of elements that only the peer holds and that are not added are at most the own elements and the additions of the peer's, plus what the caps leave free, for additions twice |
| UpsuRound.PeerDeletionSucceeds | examples/upsu/upsu.cc:353-380 | a round in which one party deletes elements that only its peer holds succeeds if these are no more than its own elements and the peer deletes nothing |
| UpsuRound.PeerDeletionExhausts | examples/upsu/upsu.cc:365-380 | a deletion of an element only the peer holds can ask for a dummy beyond the last one |
| UpsuRound.Party.Preprocess | examples/upsu/upsu.cc:311-380 | one party's preprocessing: the query has the public size, and the padded list for the intersection is complete exactly if the padding is at most twice the dummies |
| UpsuRound.Deletion | examples/upsu/upsu.cc:382-390 | both parties learn the points of what leaves the union, if no two of the finitely many points that may be entered collide |
| UpsuRound.Party.BuildS1 | examples/upsu/upsu.cc:580-598 | the answer is the peer's points without what leaves, the own additions under a fresh exponent, and blanks up to the public size |
| UpsuRound.AdditionsAreHeld | examples/upsu/upsu.cc:600-643 | if the OKVS instances decode what this round encodes, they hold every addition under its blinded image |
| UpsuRound.Party.Merge | examples/upsu/upsu.cc:435-463 | the receiver of the answer ends with the survivors and the additions, whatever the blanks decode to and also if an addition is already mapped |
| UpsuRound.SizeCheck | examples/upsu/upsu.cc:414-417 | the size check holds exactly if everything deleted was in the union |
| UpsuRound.Delete | examples/upsu/upsu.cc:311-390 | preprocessing and deletion of both parties go through exactly if both pools of dummies last |
| UpsuRound.Add | examples/upsu/upsu.cc:392-463 | the addition phase passes its size check exactly if nothing outside the union is deleted by both, and yields survivors and additions |
| UpsuRound.Round | examples/upsu/upsu.cc:306-661 | a round succeeds exactly under these two conditions; then both parties hold the union of the updated sets and their peer-exclusive parts, and all message sizes are functions of public counts |
| UpsuRound.SucceedsIff | examples/upsu/upsu.cc:306-661 | when a round succeeds, in the sizes of the sets and requests of both parties |
| UpsuRound.Rounds | examples/upsu/upsu.cc:286-661 | any number of rounds: up to the first failing one the sets, unions and peer-exclusive parts agree |
| UpsuRound.OwnDeletionsSucceed | examples/upsu/upsu.cc:306-661 | parties that delete only what they hold never fail a round |
| MaskedDecoding.Solve | psu/iblt_based_psu/volePSI/PaxosImpl.h:779-845 | solving from keys: on success every key decodes to its value and no key is given twice; it fails for a column of 200 rows or more, and otherwise exactly as the encoding of its rows does, which never fails for rows without a core |
| MaskedDecoding.SolvesIff | psu/iblt_based_psu/volePSI/PaxosImpl.h:779-845 | for keys with different dense parts: solved exactly if no column is too heavy, no key is repeated and the gap is solved |
| MaskedDecoding.MaskDifference | rr22/rr22.cc:83-150 | the masks of a key under the correlation differ by delta times the error of decoding the key |
| MaskedDecoding.MasksAgreeIff | rr22/rr22.cc:83-150 | for an invertible delta both masks of a key agree exactly if the key was encoded with that value |
| MaskedDecoding.MasksAgree | rr22/rr22.cc:83-150 | an encoded key has the same mask on both sides for every delta |
| Rr22.GetIntersectionIdx | rr22/rr22.cc:40-57 | exactly the positions whose entry occurs in the other list, in increasing order |
| Rr22.SelectedAreCommon | rr22/rr22.cc:28-57 | if masks match exactly where elements are shared, the selected elements are the shared ones in order |
| Rr22.Psi | rr22/rr22.cc:59-164 | every shared element is reported, and the result is exactly the intersection unless two masks agree by accident; it succeeds exactly if both sets have the same size and the elements of the receiver are solved for; without a core only a column of 200 rows prevents that, and a repeated element always does |
| RsOprf.ChunksArriveIff | psu/iblt_based_psu/volePSI/RsOprf.cpp:372-421 | the vector sent in chunks arrives masked as intended exactly if it is shorter than two chunks |
| RsOprf.TwoChunksLost | psu/iblt_based_psu/volePSI/RsOprf.cpp:372-421 | a failing length: a vector of 2^29 blocks, exactly two chunks, does not arrive as intended for any non-zero mask |
| RsOprf.ShortVectorsArrive | psu/iblt_based_psu/volePSI/RsOprf.cpp:372-421 | with chunks of 2^28 blocks every vector of fewer than 2^29 blocks arrives as intended |
| RsOprf.SendMasked | psu/iblt_based_psu/volePSI/RsOprf.cpp:372-421 | the in-place loop over shrinking spans sends the modelled messages |
| RsOprf.AddMessages | psu/iblt_based_psu/volePSI/RsOprf.cpp:98-144 | the sender's vector gains delta times the received vector, chunk by chunk |
| RsOprf.Receive | psu/iblt_based_psu/volePSI/RsOprf.cpp:266-423 | for vectors shorter than two chunks the sender ends with the shifted vector, and each output is the hash of the decoded mask; it succeeds exactly if the inputs are solved for, which repeated inputs never are |
| RsOprf.EvalAgrees | psu/iblt_based_psu/volePSI/RsOprf.cpp:213-240 | the sender's evaluation of any input of the receiver is the receiver's output for it |
| RsOprf.ReceiveThenEval | psu/iblt_based_psu/volePSI/RsOprf.cpp:213-423 | the whole exchange: whenever the receiver succeeds, the sender's evaluation of all its inputs on the vector it is left with is the receiver's output |
| Interpolation.Evaluate | psu/krtw19_psu.cc:56-63 | Horner's rule computes the value of the polynomial |
| Interpolation.PolyOfValue | psu/krtw19_psu.cc:73-82 | the product polynomial has the product of the linear factors as its value everywhere |
| Interpolation.TakeOut | psu/krtw19_psu.cc:87-93 | any factor can be taken out of the product last |
| Interpolation.BuildProduct | psu/krtw19_psu.cc:73-82 | the in-place carry loop multiplies out all linear factors |
| Interpolation.Divide | psu/krtw19_psu.cc:87-93 | synthetic division of the product by one factor gives the product of the others |
| Interpolation.Interpolate | psu/krtw19_psu.cc:69-103 | for distinct points the polynomial takes the given values, for any number of points |
| Krtw.HashInputs | psu/krtw19_psu.cc:44-52 | every bin holds exactly the elements that hash to it, in input order |
| Krtw.Batches | psu/krtw19_psu.cc:122-279 | over all batches, the last one possibly short, every element, polynomial, seed and choice bit sits at its own slot |
| Krtw.ChoiceMeansShared | psu/krtw19_psu.cc:222-279 | the choice bit of an occupied slot is set exactly if the receiver's bin shows the element |
| Krtw.Union | psu/krtw19_psu.cc:105-299 | the receiver ends with its own elements and all elements that reach the sender's slots, and the transfers carry only elements its bins do not show |
| Krtw.UnionIsCompleteIff | psu/krtw19_psu.cc:141-152 | the union is complete exactly if the receiver holds every element cut from an overfull bin |
| Krtw.OverfullBinLoses | psu/krtw19_psu.cc:141-152 | a failing input: 65 elements in one bin and a receiver that has none |
| Krtw.SmallBinsComplete | psu/krtw19_psu.cc:141-152 | bins of at most 64 elements lose nothing |
| Krtw.FullBinReaches | psu/krtw19_psu.cc:141-152 | a full bin: 64 elements of one bin all reach a receiver that has none |
| BitPolynomials.RingLaws | rr22/okvs/galois128.cc:83-105 | residues of bit polynomials form a commutative ring |
| BitPolynomials.RemClmul | rr22/okvs/galois128.cc:41-78 | reducing a carry-less product is multiplying by the residue |
| BitPolynomials.ClmulBits | rr22/okvs/galois128.cc:41-55 | the carry-less product has the coefficients of the polynomial product |
| BitPolynomials.DivisionWithRemainder | rr22/okvs/galois128.cc:57-105 | the residue is the remainder of division by the modulus: quotient times modulus plus residue is the polynomial, coefficient by coefficient |
| Galois128.CcGf128Mul | rr22/okvs/galois128.cc:83-105 | the 128-step shift-and-add loop computes the residue of the polynomial product, for all inputs |
| Galois128.MmGf128Mul | rr22/okvs/galois128.cc:41-55 | four half-word products, moved and added, are the 256-bit carry-less product |
| Galois128.MmGf128Reduce | rr22/okvs/galois128.cc:57-78 | folding the upper word down twice gives the residue modulo x^128 + x^7 + x^2 + x + 1 |
| Galois128.MulByClmul | rr22/okvs/galois128.cc:134-152 | both multiplication paths agree |
| Galois128.Pow | rr22/okvs/galois128.cc:154-174 | square and multiply computes the power; the power of zero is zero, also for the exponent zero |
| Galois128.Inv | rr22/okvs/galois128.cc:176-203 | the addition chain computes x^(2^128 - 2), and the final check returns it exactly if it is an inverse |
| FiniteField.FrobeniusFixes | rr22/okvs/galois128.cc:176-203 | squaring any word 128 times gives it back |
| FiniteField.IdempotentsTrivial | rr22/okvs/galois128.cc:176-203 | only zero and one are their own squares |
| FiniteField.InverseIff | rr22/okvs/galois128.cc:176-203 | the inversion check passes for every word but zero |
| FiniteField.ModulusIrreducible | rr22/okvs/galois128.cc:83-107 | x^128 + x^7 + x^2 + x + 1 is not the product of two polynomials of lower degree |
| FiniteField.Gf128IsField | rr22/okvs/galois128.cc:41-203 | the words with this multiplication and this inversion are a field |
| FiniteField.GapOverGf128 | psu/iblt_based_psu/volePSI/PaxosImpl.h:1573-1645 | over the words no encoding fails for want of an inverse: a gap that fits is solved exactly if its matrix is invertible and no pivot is overlooked |
| Instances.Gf128IsSpace | rr22/okvs/galois128.cc:41-203 | the words with this multiplication satisfy every law the OKVS proofs use |
| Instances.PowersOfDense | psu/iblt_based_psu/volePSI/PaxosImpl.h:1573-1645 | the dense coefficients of a key are the powers of its dense part from the first on |
| Instances.BitsAreSpaces | rr22/okvs/dense_mtx.cc:56-132 | bits acting on blocks, and on bits, satisfy every law the OKVS proofs use |
| RowBuilding.AdjustIsBijection | rr22/okvs/paxos_hash.cc:229-255 | the weight-three adjustment is a bijection from residues to ordered triples of distinct columns |
| RowBuilding.AdjustCountsAbsent | rr22/okvs/paxos_hash.cc:229-255 | the second residue counts the columns other than the first, and the third those other than both |
| RowBuilding.BuildRow3 | rr22/okvs/paxos_hash.cc:218-258 | the in-place increments compute the adjustment, and the columns are distinct and in range |
| RowBuilding.LanesAgree | rr22/okvs/paxos_hash.cc:49-180 | the branch-free arithmetic of one lane computes what the branches compute |
| RowBuilding.LanesAreSpace | rr22/okvs/paxos_hash.cc:49-180 | numbers under bitwise exclusive-or satisfy the laws assumed of a lane |
| RowBuilding.BuildRow32 | rr22/okvs/paxos_hash.cc:33-209 | for weight three: both halves of sixteen lanes, laid out word by word and written back key by key, give each of the 32 keys the row it gets alone |
| RowBuilding.AbsentIsUnique | rr22/okvs/paxos_hash.cc:266-277 | at most one column is the t-th absent one |
| RowBuilding.InsertAddsAbsent | rr22/okvs/paxos_hash.cc:266-286 | the insertion keeps the row strictly sorted and adds the t-th absent column |
| RowBuilding.RowIsGood | rr22/okvs/paxos_hash.cc:259-286 | rows of any weight are strictly sorted and in range |
| RowBuilding.BuildRow | rr22/okvs/paxos_hash.cc:259-286 | the in-place loop builds the row from repeated squares of the hash |
| RowBuilding.FreshSquares | rr22/okvs/paxos_hash.cc:259-286 | each column added is the absent one that the low half of a fresh square of the hash counts, modulo the columns that are left |
| Binning.SlotsApart | rr22/okvs/baxos.cc:196-241 | different items of different threads and bins have different places in the backing arrays |
| Binning.MappedOnce | rr22/okvs/baxos.cc:258-329 | every input is listed under its bin exactly once, in order |
| Binning.Bins.MapAll | rr22/okvs/baxos.cc:252-332 | all threads map their ranges, in any interleaving; every part holds its inputs with hashes and values aligned |
| Binning.Bins.Merge | rr22/okvs/baxos.cc:354-403 | the in-place merge leaves each bin with exactly its inputs in input order, whatever the number of threads, and disturbs no other bin |
| Baxos.ImplParSolve | rr22/okvs/baxos.cc:162-457 | on success every input decodes, in the slice of its bin, to its value; a single bin is solved as it is; several are solved exactly if none holds more items than allowed and each is solved, in particular if the rows of every bin have no core |
| Baxos.BinEndsIff | rr22/okvs/baxos.cc:355-402 | a bin is refused for its size exactly if more inputs than allowed fall into it; otherwise it is solved if its rows have no core and no column is in 200 of them |
| Baxos.DecodeTogether | rr22/okvs/paxos.cc:1245-1384 | decoding 32 keys together with the GF128 dense type gives each key what it decodes to alone |
| Baxos.DecodeTogetherBits | rr22/okvs/paxos.cc:1385-1428 | the same with the Binary dense type, eight keys at a time and one bit of each key at a time |
| BatchedDecoding.DecodeBin | rr22/okvs/baxos.cc:486-540 | exactly the positions of the buffered inputs get their values, assigned or added, in groups of 32 and one by one |
| BatchedDecoding.ImplDecodeBatch | rr22/okvs/baxos.cc:542-642 | for both dense types, assigning or adding: whatever the order of bins and flushes, every value becomes what decoding its input alone gives |
| BatchedDecoding.ImplParDecode | rr22/okvs/baxos.cc:644-678 | the threads' ranges together decode every input; a single bin is decoded without adding |
| BatchedDecoding.OneBinDoesNotAdd | rr22/okvs/baxos.cc:644-656 | a decoder told to add gets the sum from a single bin exactly where nothing was there before |
| BatchedDecoding.SolveThenDecode | rr22/okvs/baxos.h:148-160 | solving and decoding on any numbers of threads returns every value whenever the bins are solved |
| Upsi.Round | upsi.cc:41-204 | the stored intersection after a round contains the new one, and equals it exactly if no addition deleted in the same round is found by the peer; always with deletions first |
| Upsi.UpdateIsExactIff | upsi.cc:66-90 | the same condition for the set expression behind the update |
| Upsi.Rounds | main.cc:631-634 | any number of rounds keep both stored sets equal to the intersection; unconditionally when deletions come first |
| Upsi.StaleAdditionStays | upsi.cc:48-50 | with insertions first an element added and deleted in one round stays in the stored intersection |

## Left out

- Randomised encoding (a non-null generator): only the form the repository calls is modelled; it leaves the columns in bucket zero at zero.
- PaxosState.Paxos.SetInput: requires two more sparse columns than items, as every parameter choice of the repository provides; without them the trailing trim of the bucket lists could empty the table. Weights of 200 and more are reported as an error, where a release build would write outside the table.
- Backfill.BackSubstituteGf128: merges the unrolled loop for weight three with the general one.
- BackfillBinary.GetGapCols: stops when all choices are used up; the code unranks one index too many before it notices.
- BackfillBinary.EncodeBinary: follows PaxosImpl.h; the port in rr22/okvs/paxos.cc mixes two gap sizes and two halves of the dense word.
- GaussJordan.InvertGf128: a missing inverse of a scalar is an explicit outcome, as in the code, which checks each inverse when it computes it; `FiniteField.GapOverGf128` shows that it does not occur.
- PaxosState.Paxos.Triangulate: which of several columns of the same least weight is taken is left open; in the code it is the last one put on their list.
- Interpolation.Interpolate: assumes a field; it is stated over the laws and not for the 64-bit field of the library, which is not part of this model. `FiniteField.Gf128IsField` gives one field that meets the assumption.
- RowBuilding.BuildRow32: leaves out overflow of 64-bit lanes and takes the three words of a hash as numbers; for other weights the code calls `BuildRow` for each key.
- RowBuilding.BuildRow3: takes the three words of the hash as numbers.
- IbltTable.Iblt.AddItem: the five bins of an item are given as distinct; how `hash_eval` probes for them depends on a generator that is not part of this model.
- IbltPsu.Run: treats the first round as a general round that probes the whole table.
- UpsuSteps.Pad: a read past the dummies is an explicit outcome, where the code would read outside its vector.
- UpsuRound.Round: elements are compared through ideal points, the intersection and the two OKVS instances are ideal, and the random dummies, blanks and fillers are parameters drawn outside what the code excludes.
- MaskedDecoding.Solve: requires two more sparse columns than keys, for the reason given at `PaxosState.Paxos.SetInput`.
- RsOprf.Receive: requires fewer than two chunks; `RsOprf.ChunksArriveIff` shows why. Groups of eight entries are folded into plain loops.
- Rr22.Psi: requires two more sparse columns than elements, as the solver does, and uses one bin; `BatchedDecoding` shows that bins decode as one instance each. The parallel loops are sequential here.
- Krtw.Union: the order of a sorted bin is a parameter, and correction messages of the OPRF extension are ideal.
- Binning.Bins.MapAll: threads interleave by whole inputs; the mapping from bins back to inputs is left out because nothing reads it.
- Baxos.ImplParSolve: bins are solved one after another; capacity of every thread's part is required, which the code checks only in its last loop, and two more sparse columns than items per bin. With a single bin the code reads as many inputs as it was set up for, even if it is given fewer (rr22/okvs/paxos.cc:286); the model takes exactly as many.
- BatchedDecoding.ImplDecodeBatch: the values are a sequence that is returned, and threads decode one after another.
- Baxos.DecodeTogetherBits: takes the bits of a key from the half word the code reads.
- Permutations and the debug forms of the matrix in PxUtil.h and PaxosImpl.h.
- Parameter selection and floating point: their results are parameters with stated bounds.
- Network, serialisation, coroutines and OpenMP; messages are values.
- The malicious branch of the OPRF, privacy and failure probabilities.
