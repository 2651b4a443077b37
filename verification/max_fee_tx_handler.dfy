/**
  `MaxFeeTxHandler`: computes a fee for each individually valid candidate,
  enumerates every subset of the candidates as a bit mask, keeps the
  numerically smallest mask of largest total, and applies that subset.

  Two traits of the class are kept:
  - it holds two pools: `basePool`, the superclass's private pool, which is the
    one `isValidTx` reads, and `pool`, the subclass's own field of the same
    name, which the fees read and the update writes. Both start as copies of
    the constructor's argument; only `pool` ever changes.
  - a subset is admitted when each member is valid on its own. The per-subset
    scratch pool is written but never read, so two members of the chosen
    subset may claim the same UTXO.
*/
module MaxFeeTxHandler {
  import opened Wrappers
  import opened Ledger
  import opened Masks
  import TxHandler

  datatype Handler = Handler(basePool: Pool, pool: Pool)

  /** Construction copies the given pool into both fields. */
  function NewHandler(pool: Pool): Handler {
    Handler(pool, pool)
  }

  /** The fee of `tx` against `pool`: claimed values present in the pool minus output values. */
  function Fee(pool: Pool, tx: Transaction): int {
    ClaimedValue(pool, tx.inputs) - OutputSum(tx.outputs)
  }

  /**
    `calculateFee`: sum the pool values of the claimed outputs that are in the
    pool, skipping the others, then subtract the output values.
  */
  method CalculateFee(pool: Pool, tx: Transaction) returns (fee: int)
    ensures fee == Fee(pool, tx)
    ensures (forall i :: 0 <= i < |tx.inputs| ==> Claimed(tx.inputs[i]) !in pool) ==> fee == -OutputSum(tx.outputs)
  {
    var totalInput := 0;
    var i := 0;
    while i < |tx.inputs|
      invariant 0 <= i <= |tx.inputs|
      invariant totalInput == ClaimedValue(pool, tx.inputs[..i])
      invariant (forall k :: 0 <= k < |tx.inputs| ==> Claimed(tx.inputs[k]) !in pool) ==> totalInput == 0
    {
      var utxo := Claimed(tx.inputs[i]);
      if utxo in pool {
        totalInput := totalInput + pool[utxo].value;
      }
      assert tx.inputs[..i + 1][..i] == tx.inputs[..i];
      i := i + 1;
    }
    assert tx.inputs[..i] == tx.inputs;
    var totalOutput := 0;
    var j := 0;
    while j < |tx.outputs|
      invariant 0 <= j <= |tx.outputs|
      invariant totalOutput == OutputSum(tx.outputs[..j])
    {
      assert tx.outputs[..j + 1][..j] == tx.outputs[..j];
      totalOutput := totalOutput + tx.outputs[j].value;
      j := j + 1;
    }
    assert tx.outputs[..j] == tx.outputs;
    fee := totalInput - totalOutput;
  }

  /** A transaction valid against a pool pays a non-negative fee against that same pool. */
  lemma ValidFeeIsNonNegative(crypto: Crypto, pool: Pool, tx: Transaction)
    requires TxHandler.Valid(crypto, pool, tx)
    ensures Fee(pool, tx) >= 0
  {
  }

  /** Which candidates are individually valid against `basePool`. */
  function Feasibility(crypto: Crypto, basePool: Pool, txs: seq<Transaction>): seq<bool> {
    seq(|txs|, i requires 0 <= i < |txs| => TxHandler.Valid(crypto, basePool, txs[i]))
  }

  /**
    The fee table: an entry for each individually valid candidate, keyed by its
    index (the source keys it by the transaction object, which gives every
    index of the same object the same entry).
  */
  function FeeTable(crypto: Crypto, h: Handler, txs: seq<Transaction>): seq<Option<int>> {
    seq(|txs|, i requires 0 <= i < |txs| =>
      if TxHandler.Valid(crypto, h.basePool, txs[i]) then Some(Fee(h.pool, txs[i])) else None)
  }

  /**
    The first loop of `handleTxs`: for each candidate valid against the
    superclass pool, record its fee against the subclass pool.
  */
  method ComputeFees(h: Handler, crypto: Crypto, txs: seq<Transaction>) returns (fees: seq<Option<int>>)
    ensures |fees| == |txs|
    ensures forall i :: 0 <= i < |txs| ==>
      (fees[i].Some? <==> TxHandler.Valid(crypto, h.basePool, txs[i]))
    ensures forall i :: 0 <= i < |txs| && fees[i].Some? ==> fees[i].value == Fee(h.pool, txs[i])
    ensures fees == FeeTable(crypto, h, txs)
  {
    fees := [];
    var i := 0;
    while i < |txs|
      invariant 0 <= i <= |txs|
      invariant |fees| == i
      invariant forall k :: 0 <= k < i ==>
        fees[k] == (if TxHandler.Valid(crypto, h.basePool, txs[k]) then Some(Fee(h.pool, txs[k])) else None)
    {
      var ok := TxHandler.IsValidTx(crypto, h.basePool, txs[i]);
      if ok {
        var fee := CalculateFee(h.pool, txs[i]);
        fees := fees + [Some(fee)];
      } else {
        fees := fees + [None];
      }
      i := i + 1;
    }
  }

  /** `getOrDefault(tx, 0.0)`. */
  function FeeOrZero(fees: seq<Option<int>>, i: nat): int
    requires i < |fees|
  {
    fees[i].GetOr(0)
  }

  /** True iff every candidate in `mask` is individually valid. */
  predicate MembersFeasible(feasible: seq<bool>, mask: nat) {
    forall i :: 0 <= i < |feasible| && Bit(mask, i) ==> feasible[i]
  }

  /** Total table fee of the candidates below `k` that are in `mask`. */
  function MaskFee(fees: seq<Option<int>>, mask: nat, k: nat): int
    requires k <= |fees|
    decreases k
  {
    if k == 0 then 0
    else MaskFee(fees, mask, k - 1) + (if Bit(mask, k - 1) then FeeOrZero(fees, k - 1) else 0)
  }

  /**
    `dp[mask]` after the enumeration: the total fee when every member is
    individually valid and the total is positive, and 0 otherwise.
  */
  function DpValue(feasible: seq<bool>, fees: seq<Option<int>>, mask: nat): int
    requires |feasible| == |fees|
  {
    var total := MaskFee(fees, mask, |fees|);
    if MembersFeasible(feasible, mask) && total > 0 then total else 0
  }

  /** Total table fee of the candidates listed in `chosen`. */
  function ListFee(fees: seq<Option<int>>, chosen: seq<nat>): int
    requires forall k :: 0 <= k < |chosen| ==> chosen[k] < |fees|
    decreases |chosen|
  {
    if |chosen| == 0 then 0
    else ListFee(fees, chosen[..|chosen| - 1]) + FeeOrZero(fees, chosen[|chosen| - 1])
  }

  lemma ListFeeAppend(fees: seq<Option<int>>, front: seq<nat>, i: nat)
    requires forall k :: 0 <= k < |front| ==> front[k] < |fees|
    requires i < |fees|
    ensures ListFee(fees, front + [i]) == ListFee(fees, front) + FeeOrZero(fees, i)
  {
  }

  /** The total of a mask is the total of its member list. */
  lemma {:induction false} MaskFeeIsListFee(fees: seq<Option<int>>, mask: nat, k: nat)
    requires k <= |fees|
    ensures MaskFee(fees, mask, k) == ListFee(fees, Members(mask, k))
    decreases k
  {
    if k > 0 {
      MaskFeeIsListFee(fees, mask, k - 1);
      if Bit(mask, k - 1) {
        ListFeeAppend(fees, Members(mask, k - 1), k - 1);
        assert Members(mask, k) == Members(mask, k - 1) + [k - 1];
      } else {
        assert Members(mask, k) == Members(mask, k - 1);
      }
    }
  }

  /** The empty subset has total 0. */
  lemma {:induction false} EmptyMaskFee(fees: seq<Option<int>>, k: nat)
    requires k <= |fees|
    ensures MaskFee(fees, 0, k) == 0
    decreases k
  {
    if k > 0 {
      ZeroHasNoBits(k - 1);
      EmptyMaskFee(fees, k - 1);
    }
  }

  /**
    The body of the mask loop: visit the candidates in index order; for each
    one in `mask`, re-run `isValidTx` against `basePool`, stopping at the first
    invalid one, and add its table fee.
  */
  method EvaluateMask(crypto: Crypto, basePool: Pool, txs: seq<Transaction>, fees: seq<Option<int>>, mask: nat)
    returns (isValid: bool, currentFee: int)
    requires |fees| == |txs|
    ensures isValid == MembersFeasible(Feasibility(crypto, basePool, txs), mask)
    ensures isValid ==> currentFee == MaskFee(fees, mask, |txs|)
  {
    ghost var feasible := Feasibility(crypto, basePool, txs);
    currentFee := 0;
    isValid := true;
    var i := 0;
    while i < |txs|
      invariant 0 <= i <= |txs|
      invariant isValid
      invariant forall k :: 0 <= k < i && Bit(mask, k) ==> feasible[k]
      invariant currentFee == MaskFee(fees, mask, i)
    {
      if Bit(mask, i) {
        var ok := TxHandler.IsValidTx(crypto, basePool, txs[i]);
        if !ok {
          isValid := false;
          break;
        }
        currentFee := currentFee + FeeOrZero(fees, i);
      }
      i := i + 1;
    }
  }

  /**
    The selection loop: the first index holding the largest value. The strict
    comparison keeps the earliest maximum.
  */
  method FirstArgMax(dp: seq<int>) returns (best: nat)
    requires |dp| > 0
    ensures best < |dp|
    ensures forall m :: 0 <= m < |dp| ==> dp[m] <= dp[best]
    ensures forall m :: 0 <= m < best ==> dp[m] < dp[best]
  {
    best := 0;
    var m := 0;
    while m < |dp|
      invariant 0 <= m <= |dp|
      invariant best < |dp| && (best == 0 || best < m)
      invariant forall k :: 0 <= k < m ==> dp[k] <= dp[best]
      invariant forall k :: 0 <= k < best ==> dp[k] < dp[best]
    {
      if dp[m] > dp[best] {
        best := m;
      }
      m := m + 1;
    }
  }

  /**
    The mask loop of `findMaxFeeSet`: `dp` starts at 0 everywhere and `dp[mask]`
    is raised to the mask's total when every member is valid and the total is
    positive.
  */
  method FillDp(crypto: Crypto, basePool: Pool, txs: seq<Transaction>, fees: seq<Option<int>>)
    returns (dp: seq<int>)
    requires |txs| < 31 && |fees| == |txs|
    ensures |dp| == Pow2(|txs|)
    ensures forall m :: 0 <= m < |dp| ==> dp[m] == DpValue(Feasibility(crypto, basePool, txs), fees, m)
  {
    ghost var feasible := Feasibility(crypto, basePool, txs);
    var size := Pow2(|txs|);
    dp := seq(size, _ => 0);
    EmptyMaskFee(fees, |txs|);
    var mask := 1;
    while mask < size
      invariant 1 <= mask <= size
      invariant |dp| == size
      invariant forall m :: 0 <= m < mask ==> dp[m] == DpValue(feasible, fees, m)
      invariant forall m :: mask <= m < size ==> dp[m] == 0
    {
      var isValid, currentFee := EvaluateMask(crypto, basePool, txs, fees, mask);
      if isValid && currentFee > dp[mask] {
        dp := dp[mask := currentFee];
      }
      mask := mask + 1;
    }
  }

  /** The result loop of `findMaxFeeSet`: the candidates whose bit is set in `mask`, in index order. */
  method MaskMembers(txs: seq<Transaction>, mask: nat) returns (result: seq<Transaction>, chosen: seq<nat>)
    ensures chosen == Members(mask, |txs|)
    ensures result == TxHandler.Select(txs, chosen)
  {
    result, chosen := [], [];
    var i := 0;
    while i < |txs|
      invariant 0 <= i <= |txs|
      invariant chosen == Members(mask, i)
      invariant result == TxHandler.Select(txs, chosen)
    {
      if Bit(mask, i) {
        chosen := chosen + [i];
        result := result + [txs[i]];
      }
      i := i + 1;
    }
  }

  /**
    `findMaxFeeSet`: fill `dp` over every non-empty mask below `2^n`, pick the
    smallest mask of largest `dp`, and return its members in index order.
  */
  method FindMaxFeeSet(crypto: Crypto, basePool: Pool, txs: seq<Transaction>, fees: seq<Option<int>>)
    returns (result: seq<Transaction>, chosen: seq<nat>, maxMask: nat)
    requires |txs| < 31 && |fees| == |txs|
    ensures maxMask < Pow2(|txs|)
    ensures forall m :: 0 <= m < Pow2(|txs|) ==>
      DpValue(Feasibility(crypto, basePool, txs), fees, m) <= DpValue(Feasibility(crypto, basePool, txs), fees, maxMask)
    ensures forall m :: 0 <= m < maxMask ==>
      DpValue(Feasibility(crypto, basePool, txs), fees, m) < DpValue(Feasibility(crypto, basePool, txs), fees, maxMask)
    ensures chosen == Members(maxMask, |txs|)
    ensures result == TxHandler.Select(txs, chosen)
  {
    var dp := FillDp(crypto, basePool, txs, fees);
    maxMask := FirstArgMax(dp);

    result, chosen := MaskMembers(txs, maxMask);
  }

  /**
    With `star` the mask of the individually valid candidates of positive fee,
    no mask of individually valid candidates totals more than `star`, and one
    that leaves out a member of `star` totals strictly less.
  */
  lemma {:induction false} MaskFeeAtMostStar(feasible: seq<bool>, fees: seq<Option<int>>, star: nat, m: nat, k: nat)
    requires |feasible| == |fees| && k <= |fees|
    requires forall i :: 0 <= i < |fees| ==> (Bit(star, i) <==> feasible[i] && FeeOrZero(fees, i) > 0)
    requires MembersFeasible(feasible, m)
    ensures MaskFee(fees, m, k) <= MaskFee(fees, star, k)
    ensures (exists i :: 0 <= i < k && Bit(star, i) && !Bit(m, i)) ==> MaskFee(fees, m, k) < MaskFee(fees, star, k)
    decreases k
  {
    if k > 0 {
      MaskFeeAtMostStar(feasible, fees, star, m, k - 1);
      if exists i :: 0 <= i < k && Bit(star, i) && !Bit(m, i) {
        var i :| 0 <= i < k && Bit(star, i) && !Bit(m, i);
        if i < k - 1 {
          assert exists j :: 0 <= j < k - 1 && Bit(star, j) && !Bit(m, j);
        }
      }
    }
  }

  /**
    The mask `findMaxFeeSet` picks -- largest `dp`, smallest such mask -- holds
    exactly the individually valid candidates whose fee is positive. Including
    a zero-fee candidate does not raise the total but makes the mask larger,
    and leaving out a positive one lowers the total.
  */
  lemma SmallestBestMaskIsProfitable(feasible: seq<bool>, fees: seq<Option<int>>, best: nat)
    requires |feasible| == |fees|
    requires best < Pow2(|fees|)
    requires forall m :: 0 <= m < Pow2(|fees|) ==> DpValue(feasible, fees, m) <= DpValue(feasible, fees, best)
    requires forall m :: 0 <= m < best ==> DpValue(feasible, fees, m) < DpValue(feasible, fees, best)
    ensures forall i :: 0 <= i < |fees| ==> (Bit(best, i) <==> feasible[i] && FeeOrZero(fees, i) > 0)
  {
    var n := |fees|;
    var bits := seq(n, i requires 0 <= i < n => feasible[i] && FeeOrZero(fees, i) > 0);
    var star := MaskOf(bits);
    assert MembersFeasible(feasible, star);
    forall i | 0 <= i < n ensures !Bit(0, i) {
      ZeroHasNoBits(i);
    }
    assert MembersFeasible(feasible, 0);
    EmptyMaskFee(fees, n);
    MaskFeeAtMostStar(feasible, fees, star, 0, n);
    var total := MaskFee(fees, star, n);
    assert DpValue(feasible, fees, star) == total;
    if MembersFeasible(feasible, best) {
      MaskFeeAtMostStar(feasible, fees, star, best, n);
    }
    assert DpValue(feasible, fees, best) == total;
    if total == 0 {
      // no positive fee at all: star is empty, and so is the first maximum
      assert forall i :: 0 <= i < n ==> !Bit(star, i);
      SubsetMaskIsSmaller(star, 0, n);
      assert DpValue(feasible, fees, 0) == 0;
      assert best == 0;
    } else {
      // best totals as much as star, so it includes every member of star
      assert MaskFee(fees, best, n) == total;
      SubsetMaskIsSmaller(star, best, n);
      assert !(star < best);
    }
    assert best == star;
  }

  /**
    Optimality: no subset of individually valid candidates has a larger total
    fee than the subset `findMaxFeeSet` picks.
  */
  lemma NoFeasibleSubsetPaysMore(feasible: seq<bool>, fees: seq<Option<int>>, best: nat, m: nat)
    requires |feasible| == |fees|
    requires best < Pow2(|fees|)
    requires forall m :: 0 <= m < Pow2(|fees|) ==> DpValue(feasible, fees, m) <= DpValue(feasible, fees, best)
    requires forall m :: 0 <= m < best ==> DpValue(feasible, fees, m) < DpValue(feasible, fees, best)
    requires MembersFeasible(feasible, m)
    ensures MaskFee(fees, m, |fees|) <= MaskFee(fees, best, |fees|)
  {
    SmallestBestMaskIsProfitable(feasible, fees, best);
    MaskFeeAtMostStar(feasible, fees, best, m, |fees|);
  }

  /**
    Reference definition of the accepted set: the candidates below `k` that are
    valid against `basePool` and pay a positive fee against `pool`, in index order.
  */
  function Profitable(crypto: Crypto, h: Handler, txs: seq<Transaction>, k: nat): (r: seq<nat>)
    requires k <= |txs|
    ensures forall j :: 0 <= j < |r| ==> r[j] < k
    ensures forall j, l :: 0 <= j < l < |r| ==> r[j] < r[l]
    ensures forall i :: 0 <= i < k ==>
      (i in r <==> TxHandler.Valid(crypto, h.basePool, txs[i]) && Fee(h.pool, txs[i]) > 0)
    decreases k
  {
    if k == 0 then []
    else
      Profitable(crypto, h, txs, k - 1)
      + (if TxHandler.Valid(crypto, h.basePool, txs[k - 1]) && Fee(h.pool, txs[k - 1]) > 0 then [k - 1] else [])
  }

  lemma {:induction false} MembersAreProfitable(crypto: Crypto, h: Handler, txs: seq<Transaction>,
                                                fees: seq<Option<int>>, best: nat, k: nat)
    requires fees == FeeTable(crypto, h, txs) && k <= |txs|
    requires forall i :: 0 <= i < |txs| ==>
      (Bit(best, i) <==> Feasibility(crypto, h.basePool, txs)[i] && FeeOrZero(fees, i) > 0)
    ensures Members(best, k) == Profitable(crypto, h, txs, k)
    decreases k
  {
    if k > 0 {
      MembersAreProfitable(crypto, h, txs, fees, best, k - 1);
      var i := k - 1;
      var valid := TxHandler.Valid(crypto, h.basePool, txs[i]);
      assert Feasibility(crypto, h.basePool, txs)[i] == valid;
      assert valid ==> FeeOrZero(fees, i) == Fee(h.pool, txs[i]);
      assert Bit(best, i) <==> valid && Fee(h.pool, txs[i]) > 0;
    }
  }

  /** Accepting the chosen transactions in order, as `handleTxs` does: the correct update, per transaction. */
  method ApplyChosen(pool: Pool, chosen: seq<Transaction>) returns (r: Pool)
    ensures r == ApplyAll(pool, chosen)
  {
    r := pool;
    var k := 0;
    while k < |chosen|
      invariant 0 <= k <= |chosen|
      invariant r == ApplyAll(pool, chosen[..k])
    {
      assert chosen[..k + 1][..k] == chosen[..k];
      r := ApplyTx(r, chosen[k]);
      k := k + 1;
    }
    assert chosen[..k] == chosen;
  }

  /**
    `handleTxs`: a null or empty batch changes nothing; otherwise the accepted
    transactions are exactly the individually valid candidates (against the
    superclass pool) of positive fee (against the subclass pool), in index
    order, and they are applied in that order to the subclass pool only.
  */
  method HandleTxs(h: Handler, crypto: Crypto, possibleTxs: Option<seq<Transaction>>)
    returns (h': Handler, accepted: seq<Transaction>, chosen: seq<nat>)
    requires possibleTxs.Some? ==> |possibleTxs.value| < 31
    ensures possibleTxs.None? || possibleTxs == Some([]) ==> h' == h && accepted == [] && chosen == []
    ensures possibleTxs.Some? ==>
      var txs := possibleTxs.value;
      && chosen == Profitable(crypto, h, txs, |txs|)
      && accepted == TxHandler.Select(txs, chosen)
      && h'.basePool == h.basePool
      && h'.pool == ApplyAll(h.pool, accepted)
    ensures possibleTxs.Some? ==>
      var txs := possibleTxs.value;
      forall m :: 0 <= m < Pow2(|txs|) && MembersFeasible(Feasibility(crypto, h.basePool, txs), m) ==>
        MaskFee(FeeTable(crypto, h, txs), m, |txs|) <= ListFee(FeeTable(crypto, h, txs), chosen)
  {
    if possibleTxs.None? || |possibleTxs.value| == 0 {
      return h, [], [];
    }
    var txs := possibleTxs.value;
    var fees := ComputeFees(h, crypto, txs);
    var maxMask;
    accepted, chosen, maxMask := FindMaxFeeSet(crypto, h.basePool, txs, fees);
    SmallestBestMaskIsProfitable(Feasibility(crypto, h.basePool, txs), fees, maxMask);
    MembersAreProfitable(crypto, h, txs, fees, maxMask, |txs|);
    MaskFeeIsListFee(fees, maxMask, |txs|);
    forall m | 0 <= m < Pow2(|txs|) && MembersFeasible(Feasibility(crypto, h.basePool, txs), m)
      ensures MaskFee(fees, m, |txs|) <= ListFee(fees, chosen)
    {
      NoFeasibleSubsetPaysMore(Feasibility(crypto, h.basePool, txs), fees, maxMask, m);
    }
    var pool := ApplyChosen(h.pool, accepted);
    h' := Handler(h.basePool, pool);
  }

  /**
    As written, the selection ignores conflicts: two individually valid
    candidates of positive fee that claim the same UTXO are both accepted, so
    the accepted batch double-spends that UTXO.
  */
  lemma ChosenSetMayDoubleSpend(crypto: Crypto, h: Handler, txs: seq<Transaction>, i: nat, j: nat, u: UTXO)
    requires i < j < |txs|
    requires TxHandler.Valid(crypto, h.basePool, txs[i]) && Fee(h.pool, txs[i]) > 0
    requires TxHandler.Valid(crypto, h.basePool, txs[j]) && Fee(h.pool, txs[j]) > 0
    requires u in ClaimedSet(txs[i].inputs) && u in ClaimedSet(txs[j].inputs)
    ensures i in Profitable(crypto, h, txs, |txs|) && j in Profitable(crypto, h, txs, |txs|)
  {
  }

  // The intended selection: a subset is admitted only when its members are
  // individually valid AND no two of them claim the same UTXO.

  /** No two members of `mask` below `k` claim a common UTXO. */
  predicate ConflictFreeBelow(txs: seq<Transaction>, mask: nat, k: nat)
    requires k <= |txs|
  {
    forall i, j :: 0 <= i < j < k && Bit(mask, i) && Bit(mask, j) ==>
      ClaimedSet(txs[i].inputs) !! ClaimedSet(txs[j].inputs)
  }

  /** No two members of `mask` claim a common UTXO. */
  predicate ConflictFree(txs: seq<Transaction>, mask: nat) {
    ConflictFreeBelow(txs, mask, |txs|)
  }

  /** `dp[mask]` of the intended selection: as `DpValue`, but 0 for a subset with a conflict. */
  function DpValueConflictFree(feasible: seq<bool>, txs: seq<Transaction>, fees: seq<Option<int>>, mask: nat): int
    requires |feasible| == |fees|
  {
    var total := MaskFee(fees, mask, |fees|);
    if MembersFeasible(feasible, mask) && ConflictFree(txs, mask) && total > 0 then total else 0
  }

  /** UTXOs claimed by the members of `mask` below `k`: what the scratch pool has lost so far. */
  function SpentByMembers(txs: seq<Transaction>, mask: nat, k: nat): set<UTXO>
    requires k <= |txs|
  {
    set i, u | 0 <= i < k && Bit(mask, i) && u in ClaimedSet(txs[i].inputs) :: u
  }

  /** A member whose claims meet those of an earlier member makes the mask conflicting. */
  lemma OverlapIsConflict(txs: seq<Transaction>, mask: nat, i: nat, u: UTXO)
    requires i < |txs| && Bit(mask, i)
    requires u in ClaimedSet(txs[i].inputs) && u in SpentByMembers(txs, mask, i)
    ensures !ConflictFree(txs, mask)
  {
  }

  /** A member whose claims avoid everything spent so far extends a conflict-free prefix. */
  lemma DisjointExtends(txs: seq<Transaction>, mask: nat, i: nat)
    requires i < |txs| && ConflictFreeBelow(txs, mask, i)
    requires Bit(mask, i) ==> ClaimedSet(txs[i].inputs) !! SpentByMembers(txs, mask, i)
    ensures ConflictFreeBelow(txs, mask, i + 1)
    ensures SpentByMembers(txs, mask, i + 1)
      == SpentByMembers(txs, mask, i) + (if Bit(mask, i) then ClaimedSet(txs[i].inputs) else {})
  {
  }

  /**
    The mask loop with the scratch pool in use: a member is rejected when it is
    invalid or when one of its claims was already spent by an earlier member.
  */
  method EvaluateMaskConflictFree(crypto: Crypto, basePool: Pool, txs: seq<Transaction>,
                                  fees: seq<Option<int>>, mask: nat)
    returns (isValid: bool, currentFee: int)
    requires |fees| == |txs|
    ensures isValid == (MembersFeasible(Feasibility(crypto, basePool, txs), mask) && ConflictFree(txs, mask))
    ensures isValid ==> currentFee == MaskFee(fees, mask, |txs|)
  {
    ghost var feasible := Feasibility(crypto, basePool, txs);
    var spent: set<UTXO> := {};
    currentFee := 0;
    isValid := true;
    var i := 0;
    while i < |txs|
      invariant 0 <= i <= |txs|
      invariant isValid
      invariant forall k :: 0 <= k < i && Bit(mask, k) ==> feasible[k]
      invariant ConflictFreeBelow(txs, mask, i)
      invariant spent == SpentByMembers(txs, mask, i)
      invariant currentFee == MaskFee(fees, mask, i)
    {
      if Bit(mask, i) {
        var ok := TxHandler.IsValidTx(crypto, basePool, txs[i]);
        if !ok {
          isValid := false;
          break;
        }
        var claims := ClaimedSet(txs[i].inputs);
        if !(claims !! spent) {
          var u :| u in claims && u in spent;
          OverlapIsConflict(txs, mask, i, u);
          isValid := false;
          break;
        }
        DisjointExtends(txs, mask, i);
        spent := spent + claims;
        currentFee := currentFee + FeeOrZero(fees, i);
      } else {
        DisjointExtends(txs, mask, i);
      }
      i := i + 1;
    }
  }

  /** The mask loop with the conflict check. */
  method FillDpConflictFree(crypto: Crypto, basePool: Pool, txs: seq<Transaction>, fees: seq<Option<int>>)
    returns (dp: seq<int>)
    requires |txs| < 31 && |fees| == |txs|
    ensures |dp| == Pow2(|txs|)
    ensures forall m :: 0 <= m < |dp| ==>
      dp[m] == DpValueConflictFree(Feasibility(crypto, basePool, txs), txs, fees, m)
  {
    ghost var feasible := Feasibility(crypto, basePool, txs);
    var size := Pow2(|txs|);
    dp := seq(size, _ => 0);
    EmptyMaskFee(fees, |txs|);
    var mask := 1;
    while mask < size
      invariant 1 <= mask <= size
      invariant |dp| == size
      invariant forall m :: 0 <= m < mask ==> dp[m] == DpValueConflictFree(feasible, txs, fees, m)
      invariant forall m :: mask <= m < size ==> dp[m] == 0
    {
      var isValid, currentFee := EvaluateMaskConflictFree(crypto, basePool, txs, fees, mask);
      if isValid && currentFee > dp[mask] {
        dp := dp[mask := currentFee];
      }
      mask := mask + 1;
    }
  }

  /** `findMaxFeeSet` with the conflict check: the smallest mask of largest conflict-free total. */
  method FindMaxFeeSetConflictFree(crypto: Crypto, basePool: Pool, txs: seq<Transaction>, fees: seq<Option<int>>)
    returns (result: seq<Transaction>, chosen: seq<nat>, maxMask: nat)
    requires |txs| < 31 && |fees| == |txs|
    ensures maxMask < Pow2(|txs|)
    ensures forall m :: 0 <= m < Pow2(|txs|) ==>
      DpValueConflictFree(Feasibility(crypto, basePool, txs), txs, fees, m)
        <= DpValueConflictFree(Feasibility(crypto, basePool, txs), txs, fees, maxMask)
    ensures forall m :: 0 <= m < maxMask ==>
      DpValueConflictFree(Feasibility(crypto, basePool, txs), txs, fees, m)
        < DpValueConflictFree(Feasibility(crypto, basePool, txs), txs, fees, maxMask)
    ensures chosen == Members(maxMask, |txs|)
    ensures result == TxHandler.Select(txs, chosen)
  {
    var dp := FillDpConflictFree(crypto, basePool, txs, fees);
    maxMask := FirstArgMax(dp);

    result, chosen := MaskMembers(txs, maxMask);
  }

  /**
    The intended selection is sound and optimal: its members are individually
    valid and claim pairwise disjoint UTXOs, and no conflict-free subset of
    individually valid candidates has a larger total fee.
  */
  lemma ConflictFreeSelectionIsSoundAndOptimal(feasible: seq<bool>, txs: seq<Transaction>,
                                               fees: seq<Option<int>>, best: nat, m: nat)
    requires |feasible| == |fees| == |txs|
    requires best < Pow2(|fees|)
    requires forall m :: 0 <= m < Pow2(|fees|) ==>
      DpValueConflictFree(feasible, txs, fees, m) <= DpValueConflictFree(feasible, txs, fees, best)
    requires forall m :: 0 <= m < best ==>
      DpValueConflictFree(feasible, txs, fees, m) < DpValueConflictFree(feasible, txs, fees, best)
    requires m < Pow2(|fees|) && MembersFeasible(feasible, m) && ConflictFree(txs, m)
    ensures MembersFeasible(feasible, best) && ConflictFree(txs, best)
    ensures MaskFee(fees, m, |fees|) <= MaskFee(fees, best, |fees|)
  {
    var n := |fees|;
    forall i | 0 <= i < n ensures !Bit(0, i) {
      ZeroHasNoBits(i);
    }
    EmptyMaskFee(fees, n);
    assert DpValueConflictFree(feasible, txs, fees, 0) == 0;
    if DpValueConflictFree(feasible, txs, fees, best) == 0 {
      assert best == 0;
    }
  }

  /** The member list of the chosen conflict-free mask, restated for `HandleTxsConflictFree`. */
  lemma ConflictFreeChoiceFacts(crypto: Crypto, basePool: Pool, txs: seq<Transaction>,
                                fees: seq<Option<int>>, best: nat)
    requires |fees| == |txs| && best < Pow2(|txs|)
    requires forall m :: 0 <= m < Pow2(|txs|) ==>
      DpValueConflictFree(Feasibility(crypto, basePool, txs), txs, fees, m)
        <= DpValueConflictFree(Feasibility(crypto, basePool, txs), txs, fees, best)
    requires forall m :: 0 <= m < best ==>
      DpValueConflictFree(Feasibility(crypto, basePool, txs), txs, fees, m)
        < DpValueConflictFree(Feasibility(crypto, basePool, txs), txs, fees, best)
    ensures var chosen := Members(best, |txs|);
      && (forall k :: 0 <= k < |chosen| ==> TxHandler.Valid(crypto, basePool, txs[chosen[k]]))
      && (forall k, l :: 0 <= k < l < |chosen| ==>
            ClaimedSet(txs[chosen[k]].inputs) !! ClaimedSet(txs[chosen[l]].inputs))
      && (forall m :: 0 <= m < Pow2(|txs|) && MembersFeasible(Feasibility(crypto, basePool, txs), m)
                      && ConflictFree(txs, m) ==>
            MaskFee(fees, m, |txs|) <= ListFee(fees, chosen))
  {
    var feasible := Feasibility(crypto, basePool, txs);
    EmptyMaskFee(fees, |txs|);
    forall k | 0 <= k < |txs| ensures !Bit(0, k) {
      ZeroHasNoBits(k);
    }
    ConflictFreeSelectionIsSoundAndOptimal(feasible, txs, fees, best, 0);
    MaskFeeIsListFee(fees, best, |txs|);
    forall m | 0 <= m < Pow2(|txs|) && MembersFeasible(feasible, m) && ConflictFree(txs, m)
      ensures MaskFee(fees, m, |txs|) <= ListFee(fees, Members(best, |txs|))
    {
      ConflictFreeSelectionIsSoundAndOptimal(feasible, txs, fees, best, m);
    }
  }

  /**
    The handler with the intended selection: the accepted transactions are
    individually valid, in index order, claim pairwise disjoint UTXOs, and
    are applied to the subclass pool.
  */
  method HandleTxsConflictFree(h: Handler, crypto: Crypto, possibleTxs: Option<seq<Transaction>>)
    returns (h': Handler, accepted: seq<Transaction>, chosen: seq<nat>)
    requires possibleTxs.Some? ==> |possibleTxs.value| < 31
    ensures possibleTxs.None? || possibleTxs == Some([]) ==> h' == h && accepted == [] && chosen == []
    ensures possibleTxs.Some? ==>
      var txs := possibleTxs.value;
      && (forall k :: 0 <= k < |chosen| ==> chosen[k] < |txs| && TxHandler.Valid(crypto, h.basePool, txs[chosen[k]]))
      && (forall k, l :: 0 <= k < l < |chosen| ==> chosen[k] < chosen[l])
      && (forall k, l :: 0 <= k < l < |chosen| ==>
            ClaimedSet(txs[chosen[k]].inputs) !! ClaimedSet(txs[chosen[l]].inputs))
      && accepted == TxHandler.Select(txs, chosen)
      && h'.basePool == h.basePool
      && h'.pool == ApplyAll(h.pool, accepted)
    ensures possibleTxs.Some? ==>
      var txs := possibleTxs.value;
      forall m :: 0 <= m < Pow2(|txs|) && MembersFeasible(Feasibility(crypto, h.basePool, txs), m)
                  && ConflictFree(txs, m) ==>
        MaskFee(FeeTable(crypto, h, txs), m, |txs|) <= ListFee(FeeTable(crypto, h, txs), chosen)
  {
    if possibleTxs.None? || |possibleTxs.value| == 0 {
      return h, [], [];
    }
    var txs := possibleTxs.value;
    var fees := ComputeFees(h, crypto, txs);
    var maxMask;
    accepted, chosen, maxMask := FindMaxFeeSetConflictFree(crypto, h.basePool, txs, fees);
    ConflictFreeChoiceFacts(crypto, h.basePool, txs, fees, maxMask);
    var pool := ApplyChosen(h.pool, accepted);
    h' := Handler(h.basePool, pool);
  }
}
