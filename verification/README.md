# UTXO transaction handlers, modelled in Dafny

This project models the two epoch handlers of a UTXO ledger:

- `TxHandler` checks a transaction against the pool of unspent outputs (`isValidTx`). Its `handleTxs` makes repeated passes over the candidates. In each pass it accepts every transaction that is valid against the current pool, until a pass accepts nothing.
- `MaxFeeTxHandler` computes a fee for each individually valid candidate. It then enumerates every subset of the candidates as a bit mask, keeps the numerically smallest mask with the largest total, and applies that subset.

The pool is a `map<UTXO, Output>`. Transactions, inputs and outputs are plain datatypes. Values are exact integers. The signature check (`Crypto.verifySignature`) and the signing payload (`getRawDataToSign`) are fields of a `Crypto` value of uninterpreted total functions, passed as a parameter. A transaction's hash is a field of the transaction.

A Java array reference is `Option<seq<Transaction>>`, where `None` is `null`. A Java exception is the `Failure` case of `Result`. Each handler is an immutable value. An operation returns the handler's new state; nothing is mutated in place.

Modules:

| file | module | models |
|---|---|---|
| `wrappers.dfy` | `Wrappers` | `Option`, `Result` |
| `ledger.dfy` | `Ledger` | transactions, UTXOs, the pool; spending inputs and creating outputs |
| `tx_handler.dfy` | `TxHandler` | `isValidTx`, `handleTxs` of `TxHandler` |
| `masks.dfy` | `Masks` | subsets of candidates as bit masks |
| `max_fee_tx_handler.dfy` | `MaxFeeTxHandler` | `calculateFee`, `findMaxFeeSet`, `handleTxs` of `MaxFeeTxHandler` |

Traits of the code that the model keeps:

- `MaxFeeTxHandler` has two pools. `isValidTx` reads the superclass's private pool, modelled as `basePool`. The fees and the update use the subclass's own field of the same name, modelled as `pool`. Both start as copies of the constructor argument. Only `pool` ever changes.
- In `findMaxFeeSet`, the per-subset scratch pool is written but never read. So a subset is admitted whenever each member is valid on its own, even if two members claim the same UTXO.
- Because of the strict `>` in the final loop, the chosen mask is the numerically smallest mask with the largest `dp` value.
- The output loop in `TxHandler.handleTxs` runs `j < numInputs` and reads `getOutput(j)` (see Findings).

## Model

| member | source | states |
|---|---|---|
| `TxHandler.IsValidTx` | assignment1starterCode/TxHandler.java:24-73 | The loop implementation returns true exactly when all five conditions hold: every claimed UTXO is in the pool; every signature verifies under the claimed output's key over the signing payload for that input; no UTXO is claimed twice; no output is negative; claimed input values total at least the output values. The pool is a value and cannot change. |
| `TxHandler.ValidTxFacts` | assignment1starterCode/TxHandler.java:28-71 | For a valid transaction, the claimed UTXOs are pool keys. There are exactly as many of them as inputs, so no UTXO is claimed twice. Every output is non-negative, and the outputs total at most the claimed pool values. |
| `TxHandler.DistinctClaimsCount` | assignment1starterCode/TxHandler.java:47-51 | Inputs whose claims are pairwise distinct claim as many distinct UTXOs as there are inputs. |
| `TxHandler.ApplyAsWritten` | assignment1starterCode/TxHandler.java:100-113 | Accepting a transaction as written fails exactly when it has more inputs than outputs (out-of-bounds `getOutput`). Otherwise every claimed UTXO is removed, `(hash, j)` maps to output `j` for each `j < numInputs`, and every other key is unchanged. |
| `TxHandler.AsWrittenLosesOutputs` | assignment1starterCode/TxHandler.java:107-113 | If a transaction has fewer inputs than outputs, output number `numInputs` is absent after the as-written update but present after the intended update. |
| `TxHandler.AsWrittenDropsSecondOutput` | assignment1starterCode/TxHandler.java:107-113 | A concrete transaction with one input and two outputs: the as-written update creates only the first output, while the intended update creates both. |
| `TxHandler.MarkProcessed` | assignment1starterCode/TxHandler.java:97 | Marking an unprocessed candidate lowers the number of unprocessed candidates by one. This is the termination measure of the do-while loop. |
| `TxHandler.AcceptKeepsConsistent` | assignment1starterCode/TxHandler.java:91-113 | Accepting an unprocessed candidate that is valid against the current pool keeps the bookkeeping: the processed marks match the accepted indices, those indices are distinct, and replaying them reaches the new pool. |
| `TxHandler.Visit` | assignment1starterCode/TxHandler.java:91-114 | The loop body at candidate `i` accepts exactly when the candidate is unprocessed and valid against the current pool. Accepting marks it, appends it to the order and applies it as written, keeping the replay and first-fit bookkeeping. Skipping leaves the state unchanged. A fault happens only at an unprocessed candidate valid against the current pool that has more inputs than outputs. |
| `TxHandler.ScanPass` | assignment1starterCode/TxHandler.java:88-116 | One pass either accepts at least one more candidate (strictly fewer remain unprocessed) or changes nothing. If it changes nothing, every unprocessed candidate is invalid against the pool. The pass only appends to the acceptance order, and it is first-fit: the indices it appends are increasing and were unprocessed when it began, and every other candidate that was unprocessed was invalid against the pool reached when the pass came to it, i.e. after the acceptances at smaller indices. A fault names a candidate with more inputs than outputs, which was unprocessed when the pass began and valid against the pool the pass had reached at it, after first-fit acceptances below it. |
| `TxHandler.FirstPassAccepted` | assignment1starterCode/TxHandler.java:90-99 | When the first pass, which starts with nothing processed, accepts anything, its first acceptance is valid against the starting pool and every candidate at a smaller index is invalid against it. |
| `TxHandler.HandleTxs` | assignment1starterCode/TxHandler.java:80-121 | The loop terminates. A null array faults, and an empty one returns nothing and leaves the pool as it was. On success: each candidate index is accepted at most once; in acceptance order, each accepted transaction was valid against the pool reached so far, and applying them gives the new pool; every candidate left out is invalid against the final pool. The acceptance order splits into whole passes, each first-fit in index order from the state the earlier passes left. In particular, something is accepted exactly when some candidate is valid against the starting pool, and the first accepted index is the smallest such candidate. A fault happens only at a candidate with more inputs than outputs that such a sequence of passes reaches while it is unprocessed and valid. If no candidate has more inputs than outputs, the call succeeds. |
| `Ledger.RemoveInputs` | assignment1starterCode/TxHandler.java:101-105 | Spending inputs one by one gives the pool minus the set of claimed UTXOs. |
| `Ledger.AddOutputs` | assignment1starterCode/MaxFeeTxHandler.java:41-47 | Creating outputs `0..count-1` maps each `(hash, j)` to output `j` and leaves every other key as it was. |
| `Ledger.ApplyTx` | assignment1starterCode/MaxFeeTxHandler.java:34-48 | Accepting a transaction correctly: every output `(hash, i)` for `i < numOutputs` is present with its output, every claimed UTXO not re-created is gone, and no other key changes. |
| `Ledger.ApplyAllFrame` | assignment1starterCode/MaxFeeTxHandler.java:34-48 | Applying a batch in order leaves every UTXO that no member spends or creates with the same presence and value. |
| `Masks.SubsetMaskIsSmaller` | assignment1starterCode/MaxFeeTxHandler.java:113-118 | Below `2^n`, a mask whose bits are a subset of another's is numerically no larger, and it is strictly smaller when the other has an extra bit. |
| `Masks.Members` | assignment1starterCode/MaxFeeTxHandler.java:121-126 | The indices in a mask, listed in strictly increasing order: an index is in the list exactly when it is below `n` and its bit is set. |
| `MaxFeeTxHandler.CalculateFee` | assignment1starterCode/MaxFeeTxHandler.java:53-71 | The fee is the total pool value of the claimed outputs present in the pool minus the output total. Claims missing from the pool count 0, so if none is present the fee is minus the output total. |
| `MaxFeeTxHandler.ValidFeeIsNonNegative` | assignment1starterCode/MaxFeeTxHandler.java:53-71 | A transaction valid against a pool pays a non-negative fee against that same pool. |
| `MaxFeeTxHandler.ComputeFees` | assignment1starterCode/MaxFeeTxHandler.java:20-28 | The fee table has an entry exactly for the candidates valid against the superclass pool. Each entry is the fee against the subclass pool. |
| `MaxFeeTxHandler.EvaluateMask` | assignment1starterCode/MaxFeeTxHandler.java:81-104 | A mask is reported valid exactly when every member is individually valid against the superclass pool. The members' claims are not compared with each other. When valid, the reported total is the sum of the members' table fees. |
| `MaxFeeTxHandler.FillDp` | assignment1starterCode/MaxFeeTxHandler.java:76-110 | After the mask loop, `dp` has `2^n` entries. Each `dp[mask]` is the members' total fee when every member is individually valid and the total is positive, and 0 otherwise (including the untouched `dp[0]`). |
| `MaxFeeTxHandler.MaskMembers` | assignment1starterCode/MaxFeeTxHandler.java:120-128 | The result loop returns the candidates whose bit is set, in increasing index order, with their indices. |
| `MaxFeeTxHandler.FirstArgMax` | assignment1starterCode/MaxFeeTxHandler.java:112-118 | The selected index holds the largest value, and every earlier index holds a strictly smaller one. |
| `MaxFeeTxHandler.FindMaxFeeSet` | assignment1starterCode/MaxFeeTxHandler.java:73-129 | `dp[mask]` is nonzero only when every member is individually valid, and then it is their positive total fee. The chosen mask has the largest `dp`, and it is the smallest such mask. The result lists its members in increasing index order. |
| `MaxFeeTxHandler.MaskFeeAtMostStar` | assignment1starterCode/MaxFeeTxHandler.java:80-110 | No subset of individually valid candidates totals more than the set of valid positive-fee candidates. A subset that leaves out one of them totals strictly less. |
| `MaxFeeTxHandler.SmallestBestMaskIsProfitable` | assignment1starterCode/MaxFeeTxHandler.java:80-118 | The smallest mask with the largest `dp` holds exactly the individually valid candidates whose fee is positive. |
| `MaxFeeTxHandler.NoFeasibleSubsetPaysMore` | assignment1starterCode/MaxFeeTxHandler.java:80-118 | No subset of individually valid candidates has a larger total fee than the chosen mask. |
| `MaxFeeTxHandler.MaskFeeIsListFee` | assignment1starterCode/MaxFeeTxHandler.java:102-126 | A mask's total fee equals the total fee of its member list, the list that is returned. |
| `MaxFeeTxHandler.Profitable` | assignment1starterCode/MaxFeeTxHandler.java:21-31 | Reference definition of the accepted set: an index is in it exactly when the candidate is valid against the superclass pool and its fee against the subclass pool is positive. The list is strictly increasing. |
| `MaxFeeTxHandler.MembersAreProfitable` | assignment1starterCode/MaxFeeTxHandler.java:120-126 | The members of a mask whose bits mark the valid positive-fee candidates are exactly the reference list. |
| `MaxFeeTxHandler.ApplyChosen` | assignment1starterCode/MaxFeeTxHandler.java:33-48 | The update loop applies the chosen transactions one after another, each with the correct update. |
| `MaxFeeTxHandler.HandleTxs` | assignment1starterCode/MaxFeeTxHandler.java:14-51 | A null or empty batch returns nothing and leaves the handler unchanged. Otherwise the result is exactly the candidates valid against the superclass pool with positive fee against the subclass pool, in increasing index order. No subset of individually valid candidates pays more. Only the subclass pool changes, by applying the result in order. |
| `MaxFeeTxHandler.ChosenSetMayDoubleSpend` | assignment1starterCode/MaxFeeTxHandler.java:83-100 | Two individually valid positive-fee candidates that claim the same UTXO are both accepted, so the accepted batch spends that UTXO twice. |
| `MaxFeeTxHandler.EvaluateMaskConflictFree` | assignment1starterCode/MaxFeeTxHandler.java:81-104 | With the scratch pool consulted, a mask is valid exactly when every member is individually valid and no two members claim a common UTXO. When valid, the total is the members' table fees. |
| `MaxFeeTxHandler.FillDpConflictFree` | assignment1starterCode/MaxFeeTxHandler.java:80-110 | With the conflict check, each `dp[mask]` is the members' total when they are individually valid, pairwise conflict-free and the total is positive, and 0 otherwise. |
| `MaxFeeTxHandler.FindMaxFeeSetConflictFree` | assignment1starterCode/MaxFeeTxHandler.java:73-129 | With the conflict check, the chosen mask has the largest conflict-free `dp`, and it is the smallest such mask. Its members are returned in index order. |
| `MaxFeeTxHandler.ConflictFreeSelectionIsSoundAndOptimal` | assignment1starterCode/MaxFeeTxHandler.java:80-118 | With the conflict check, the chosen members are individually valid and pairwise conflict-free. No conflict-free subset of valid candidates pays more. |
| `MaxFeeTxHandler.ConflictFreeChoiceFacts` | assignment1starterCode/MaxFeeTxHandler.java:120-126 | The returned list of the conflict-free choice has valid members with pairwise disjoint claims. Its total is at least that of any conflict-free subset of valid candidates. |
| `MaxFeeTxHandler.HandleTxsConflictFree` | assignment1starterCode/MaxFeeTxHandler.java:14-51 | The handler with the conflict check accepts valid candidates in increasing index order, and no two of them claim the same UTXO. No conflict-free subset pays more. Only the subclass pool changes. |

## Left out

- Values are `double` in the source and exact integers here. Rounding, NaN and infinities are not modelled. The positivity and argmax results hold for exact arithmetic.
- `Crypto.verifySignature`, `getRawDataToSign` and `getHash` are external. The first two are uninterpreted functions in a `Crypto` parameter; the hash is a transaction field.
- The `UTXOPool`, `UTXO` and `Transaction` classes are not part of this model. They are represented by a finite map and plain datatypes, and `UTXO` equality is value equality.
- The fee `HashMap` is keyed by the transaction object. Here it is keyed by candidate index, which gives two indices holding the same object the same entry.
- The `prev` array in `findMaxFeeSet` is written and never read, so it is not modelled.
- In the as-written selector, the scratch pool `tempPool` is not modelled as state, because nothing ever reads it.
- MaxFeeTxHandler.HandleTxs: requires fewer than 31 candidates. The source computes `1 << n` in 32-bit `int` and allocates `2^n` entries, and that overflow is not modelled.
- MaxFeeTxHandler.FindMaxFeeSet: requires fewer than 31 candidates, for the same reason.
- MaxFeeTxHandler.HandleTxsConflictFree: requires fewer than 31 candidates, for the same reason.
- MaxFeeTxHandler.FindMaxFeeSetConflictFree: requires fewer than 31 candidates, for the same reason.
- TxHandler.ApplyAsWritten: reading `getOutput(j)` past the last output is assumed to throw, so the update fails. `Transaction.getOutput` is not part of this model; if it returns `null` there instead, the Java code stores `(hash, j)` with a `null` output and does not fail.
- TxHandler.HandleTxs: a `null` element of the candidate array is not modelled. In the source it reaches `isValidTx`, which throws at assignment1starterCode/TxHandler.java:28 on `tx.numInputs()`; here every element is a transaction.
- MaxFeeTxHandler.HandleTxs: a `null` element of the candidate array is not modelled either. In the source, the fee loop at assignment1starterCode/MaxFeeTxHandler.java:24 passes it to `isValidTx`, which throws; here the handler never fails.
- TxHandler.HandleTxs: on an out-of-bounds fault, the handler's partly updated pool is not returned. The Java object keeps the removals and additions made before the exception.
- Behaviour across repeated calls is not stated. The state needed to follow them is modelled, though: the superclass pool that `isValidTx` reads never changes.
- No double-spend claim is made for `TxHandler.HandleTxs`. It would depend on transaction hashes never coinciding with the hashes of outputs already spent, and the model treats hashes as opaque.
- Order independence of the accepted set is not claimed. The as-written output loop and hash coincidences break it in general.
- The constructors (`TxHandler.NewHandler`, `MaxFeeTxHandler.NewHandler`) are the copies the source makes. They carry no contract beyond their value.

## Findings

| source | as written | input that shows it | evidently intended | confidence | as-written member | corrected member |
|---|---|---|---|---|---|---|
| assignment1starterCode/TxHandler.java:109-110 | the loop that creates UTXOs runs `j < tx.numInputs()` and reads `tx.getOutput(j)` | one input and two outputs: output 1 is never created. Two inputs and one output: the read `getOutput(1)` goes past the last output, which the model takes to throw (unverified: `Transaction.getOutput` is not part of this model) | `j < tx.numOutputs()`, as in assignment1starterCode/MaxFeeTxHandler.java:43 | high; not executed | `TxHandler.AsWrittenLosesOutputs` | `Ledger.ApplyTx` |
| assignment1starterCode/MaxFeeTxHandler.java:83-100 | the scratch pool `tempPool` loses each member's claims but is never read, and each member is checked against the unchanged pool | two individually valid candidates with positive fees that claim the same UTXO are both accepted | reject a subset in which a member claims a UTXO an earlier member already spent | medium; not executed | `MaxFeeTxHandler.ChosenSetMayDoubleSpend` | `MaxFeeTxHandler.HandleTxsConflictFree` |

The corrected update `Ledger.ApplyTx` is the update the fee-maximising handlers use. `TxHandler.HandleTxs` models the code as written, so it uses `TxHandler.ApplyAsWritten`. `MaxFeeTxHandler.HandleTxsConflictFree` is the fee-maximising handler with the conflict check. It is built from `EvaluateMaskConflictFree` and `FindMaxFeeSetConflictFree`, and it shares the fee table, the argmax loop and the update with the as-written handler.
