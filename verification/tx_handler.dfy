/**
  `TxHandler`: the validity check for a single transaction against the
  handler's pool, and the epoch handler that repeatedly scans the candidates,
  accepting every transaction that is valid against the evolving pool until a
  full pass accepts nothing.
*/
module TxHandler {
  import opened Wrappers
  import opened Ledger

  /** The handler's state: its private copy of the pool. */
  datatype Handler = Handler(pool: Pool)

  /** The exceptions `handleTxs` can raise. */
  datatype Fault =
    | NullPointer                                  // the candidate array is null
    | IndexOutOfBounds(candidate: nat, index: nat) // `getOutput(index)` past the last output, taken to throw

  /** Result of one epoch: accepted transactions, their candidate indices, the updated handler. */
  datatype Epoch = Epoch(accepted: seq<Transaction>, order: seq<nat>, handler: Handler)

  /** Constructing a handler copies the pool it is given. */
  function NewHandler(pool: Pool): Handler {
    Handler(pool)
  }

  // The five validity conditions, each stated over all inputs or outputs at once.

  /** (1) every output claimed by `tx` is in the pool. */
  predicate AllClaimsInPool(pool: Pool, tx: Transaction) {
    forall i :: 0 <= i < |tx.inputs| ==> Claimed(tx.inputs[i]) in pool
  }

  /** (2) the signature of input `i` verifies under the key owning the output it claims. */
  predicate SignatureOk(crypto: Crypto, pool: Pool, tx: Transaction, i: nat)
    requires i < |tx.inputs|
  {
    var u := Claimed(tx.inputs[i]);
    u in pool && crypto.verify(pool[u].address, crypto.rawDataToSign(tx, i), tx.inputs[i].signature)
  }

  predicate AllSignaturesOk(crypto: Crypto, pool: Pool, tx: Transaction) {
    forall i :: 0 <= i < |tx.inputs| ==> SignatureOk(crypto, pool, tx, i)
  }

  /** (3) no UTXO is claimed by two inputs. */
  predicate NoDoubleClaim(tx: Transaction) {
    forall i, j :: 0 <= i < j < |tx.inputs| ==> Claimed(tx.inputs[i]) != Claimed(tx.inputs[j])
  }

  /** (4) no output value is negative. */
  predicate NonNegativeOutputs(tx: Transaction) {
    forall j :: 0 <= j < |tx.outputs| ==> tx.outputs[j].value >= 0
  }

  /** (5) the claimed input values cover the output values. */
  predicate Conserves(pool: Pool, tx: Transaction) {
    OutputSum(tx.outputs) <= ClaimedValue(pool, tx.inputs)
  }

  /** A transaction is valid against `pool` when all five conditions hold. */
  predicate Valid(crypto: Crypto, pool: Pool, tx: Transaction) {
    && AllClaimsInPool(pool, tx)
    && AllSignaturesOk(crypto, pool, tx)
    && NoDoubleClaim(tx)
    && NonNegativeOutputs(tx)
    && Conserves(pool, tx)
  }

  /**
    `isValidTx`: one pass over the inputs (membership, signature, repeat claim,
    running input total), one pass over the outputs (sign, running output
    total), then the comparison of the totals. It returns true exactly when the
    five conditions hold. The pool is a value, so it cannot be changed.
  */
  method IsValidTx(crypto: Crypto, pool: Pool, tx: Transaction) returns (ok: bool)
    ensures ok == Valid(crypto, pool, tx)
  {
    var used: seq<UTXO> := [];
    var totalInput := 0;
    var i := 0;
    while i < |tx.inputs|
      invariant 0 <= i <= |tx.inputs|
      invariant |used| == i
      invariant forall k :: 0 <= k < i ==> used[k] == Claimed(tx.inputs[k])
      invariant forall k :: 0 <= k < i ==> SignatureOk(crypto, pool, tx, k)
      invariant forall k, l :: 0 <= k < l < i ==> Claimed(tx.inputs[k]) != Claimed(tx.inputs[l])
      invariant totalInput == ClaimedValue(pool, tx.inputs[..i])
    {
      var utxo := Claimed(tx.inputs[i]);
      if utxo !in pool {
        return false;
      }
      var out := pool[utxo];
      if !crypto.verify(out.address, crypto.rawDataToSign(tx, i), tx.inputs[i].signature) {
        assert !SignatureOk(crypto, pool, tx, i);
        return false;
      }
      if utxo in used {
        var k :| 0 <= k < |used| && used[k] == utxo;
        assert Claimed(tx.inputs[k]) == Claimed(tx.inputs[i]);
        return false;
      }
      used := used + [utxo];
      assert tx.inputs[..i + 1][..i] == tx.inputs[..i];
      totalInput := totalInput + out.value;
      i := i + 1;
    }
    assert tx.inputs[..i] == tx.inputs;

    var totalOutput := 0;
    var j := 0;
    while j < |tx.outputs|
      invariant 0 <= j <= |tx.outputs|
      invariant forall k :: 0 <= k < j ==> tx.outputs[k].value >= 0
      invariant totalOutput == OutputSum(tx.outputs[..j])
    {
      var out := tx.outputs[j];
      if out.value < 0 {
        return false;
      }
      assert tx.outputs[..j + 1][..j] == tx.outputs[..j];
      totalOutput := totalOutput + out.value;
      j := j + 1;
    }
    assert tx.outputs[..j] == tx.outputs;

    if totalInput < totalOutput {
      return false;
    }
    assert AllClaimsInPool(pool, tx) by {
      forall k | 0 <= k < |tx.inputs| ensures Claimed(tx.inputs[k]) in pool {
        assert SignatureOk(crypto, pool, tx, k);
      }
    }
    return true;
  }

  /**
    What a valid transaction guarantees, over sets: its claimed UTXOs are keys
    of the pool and there are exactly as many of them as inputs (no UTXO is
    claimed twice); its outputs are non-negative and total at most the claimed
    pool values.
  */
  lemma {:induction false} ValidTxFacts(crypto: Crypto, pool: Pool, tx: Transaction)
    requires Valid(crypto, pool, tx)
    ensures ClaimedSet(tx.inputs) <= pool.Keys
    ensures |ClaimedSet(tx.inputs)| == |tx.inputs|
    ensures forall j :: 0 <= j < |tx.outputs| ==> tx.outputs[j].value >= 0
    ensures OutputSum(tx.outputs) <= ClaimedValue(pool, tx.inputs)
  {
    DistinctClaimsCount(tx.inputs);
  }

  /** A sequence of inputs with pairwise distinct claims claims as many UTXOs as it has inputs. */
  lemma {:induction false} DistinctClaimsCount(ins: seq<Input>)
    requires forall i, j :: 0 <= i < j < |ins| ==> Claimed(ins[i]) != Claimed(ins[j])
    ensures |ClaimedSet(ins)| == |ins|
    decreases |ins|
  {
    if |ins| > 0 {
      var front := ins[..|ins| - 1];
      var last := Claimed(ins[|ins| - 1]);
      DistinctClaimsCount(front);
      assert ClaimedSet(ins) == ClaimedSet(front) + {last} by {
        assert forall i :: 0 <= i < |front| ==> front[i] == ins[i];
      }
      assert last !in ClaimedSet(front) by {
        assert forall i :: 0 <= i < |front| ==> Claimed(front[i]) != last;
      }
    }
  }

  /**
    The pool update of `handleTxs` as written: spend every input, then create
    `(hash, j) -> getOutput(j)` for `j < numInputs` -- the loop bound is the
    number of inputs, not outputs. When there are more inputs than outputs,
    `getOutput` throws (None); when there are fewer, the outputs past
    `numInputs` are never created.
  */
  function ApplyAsWritten(pool: Pool, tx: Transaction): (r: Option<Pool>)
    ensures r.Some? <==> |tx.inputs| <= |tx.outputs|
    ensures r.Some? ==> forall j :: 0 <= j < |tx.inputs| ==>
      UTXO(tx.hash, j) in r.value && r.value[UTXO(tx.hash, j)] == tx.outputs[j]
    ensures r.Some? ==> forall u :: u in ClaimedSet(tx.inputs) && !CreatedBy(u, tx.hash, |tx.inputs|) ==> u !in r.value
    ensures r.Some? ==> forall u :: u !in ClaimedSet(tx.inputs) && !CreatedBy(u, tx.hash, |tx.inputs|) ==>
      (u in r.value <==> u in pool) && (u in r.value ==> r.value[u] == pool[u])
  {
    if |tx.inputs| <= |tx.outputs| then
      Some(AddOutputs(RemoveInputs(pool, tx.inputs), tx.hash, tx.outputs, |tx.inputs|))
    else
      None
  }

  /**
    The as-written update loses outputs: when a transaction has fewer inputs
    than outputs, output number `numInputs` is not created, although the
    intended update `ApplyTx` creates it.
  */
  lemma AsWrittenLosesOutputs(pool: Pool, tx: Transaction)
    requires |tx.inputs| < |tx.outputs|
    requires UTXO(tx.hash, |tx.inputs|) !in pool
    ensures ApplyAsWritten(pool, tx).Some?
    ensures UTXO(tx.hash, |tx.inputs|) !in ApplyAsWritten(pool, tx).value
    ensures UTXO(tx.hash, |tx.inputs|) in ApplyTx(pool, tx)
  {
  }

  /** A concrete case: one input, two outputs; the second output is dropped. */
  lemma AsWrittenDropsSecondOutput()
    ensures var tx := Transaction([1], [Input([0], 0, [])], [Output(5, [7]), Output(5, [8])]);
      var pool := map[UTXO([0], 0) := Output(10, [9])];
      && ApplyAsWritten(pool, tx) == Some(map[UTXO([1], 0) := Output(5, [7])])
      && ApplyTx(pool, tx) == map[UTXO([1], 0) := Output(5, [7]), UTXO([1], 1) := Output(5, [8])]
  {
  }

  /**
    Replaying the acceptances `order` (candidate indices) from `pool0`: each
    must be valid against the pool reached so far and is then applied as
    written. None when some step is invalid or the update throws.
  */
  function Replay(crypto: Crypto, pool0: Pool, txs: seq<Transaction>, order: seq<nat>): Option<Pool>
    decreases |order|
  {
    if |order| == 0 then Some(pool0)
    else
      match Replay(crypto, pool0, txs, order[..|order| - 1])
      case None => None
      case Some(p) =>
        var k := order[|order| - 1];
        if k < |txs| && Valid(crypto, p, txs[k]) then ApplyAsWritten(p, txs[k]) else None
  }

  lemma ReplayStep(crypto: Crypto, pool0: Pool, txs: seq<Transaction>, order: seq<nat>, p: Pool, k: nat)
    requires Replay(crypto, pool0, txs, order) == Some(p)
    requires k < |txs| && Valid(crypto, p, txs[k])
    ensures Replay(crypto, pool0, txs, order + [k]) == ApplyAsWritten(p, txs[k])
  {
  }

  /** The transactions at the given candidate indices, in that order. */
  function Select(txs: seq<Transaction>, order: seq<nat>): (r: seq<Transaction>)
    requires forall k :: 0 <= k < |order| ==> order[k] < |txs|
    ensures |r| == |order|
    ensures forall k :: 0 <= k < |order| ==> r[k] == txs[order[k]]
  {
    seq(|order|, k requires 0 <= k < |order| => txs[order[k]])
  }

  /** Number of candidates not yet processed. */
  function Unprocessed(processed: seq<bool>): (r: nat)
    ensures r <= |processed|
    decreases |processed|
  {
    if |processed| == 0 then 0
    else Unprocessed(processed[..|processed| - 1]) + (if processed[|processed| - 1] then 0 else 1)
  }

  /** Marking one unprocessed candidate lowers the count by one. */
  lemma {:induction false} MarkProcessed(processed: seq<bool>, i: nat)
    requires i < |processed| && !processed[i]
    ensures Unprocessed(processed[i := true]) == Unprocessed(processed) - 1
    decreases |processed|
  {
    var n := |processed|;
    var marked := processed[i := true];
    if i < n - 1 {
      assert marked[..n - 1] == processed[..n - 1][i := true];
      MarkProcessed(processed[..n - 1], i);
    } else {
      assert marked[..n - 1] == processed[..n - 1];
    }
  }

  predicate Distinct(s: seq<nat>) {
    forall k, l :: 0 <= k < l < |s| ==> s[k] != s[l]
  }

  /**
    The bookkeeping `handleTxs` keeps between candidates: `processed` marks
    exactly the indices in `order`, those are distinct candidate indices, and
    replaying them from `pool0` reaches `pool`.
  */
  predicate Consistent(crypto: Crypto, pool0: Pool, txs: seq<Transaction>,
                       processed: seq<bool>, order: seq<nat>, pool: Pool)
  {
    && |processed| == |txs|
    && (forall i :: 0 <= i < |txs| ==> (processed[i] <==> i in order))
    && (forall k :: 0 <= k < |order| ==> order[k] < |txs|)
    && Distinct(order)
    && |order| + Unprocessed(processed) == |txs|
    && Replay(crypto, pool0, txs, order) == Some(pool)
  }

  /** Accepting an unprocessed candidate that is valid against the current pool keeps the bookkeeping. */
  lemma AcceptKeepsConsistent(crypto: Crypto, pool0: Pool, txs: seq<Transaction>,
                              processed: seq<bool>, order: seq<nat>, pool: Pool, i: nat)
    requires Consistent(crypto, pool0, txs, processed, order, pool)
    requires i < |txs| && !processed[i] && Valid(crypto, pool, txs[i])
    requires |txs[i].inputs| <= |txs[i].outputs|
    ensures Unprocessed(processed[i := true]) == Unprocessed(processed) - 1
    ensures Consistent(crypto, pool0, txs, processed[i := true], order + [i], ApplyAsWritten(pool, txs[i]).value)
  {
    var marked, extended := processed[i := true], order + [i];
    assert i !in order;
    forall j | 0 <= j < |txs|
      ensures marked[j] <==> j in extended
    {
      assert j in extended <==> j in order || j == i;
    }
    forall k | 0 <= k < |extended|
      ensures extended[k] < |txs|
    {
      if k < |order| {
        assert extended[k] == order[k];
      }
    }
    DistinctAppend(order, i);
    MarkProcessed(processed, i);
    ReplayStep(crypto, pool0, txs, order, pool, i);
  }

  /** Appending an index not yet present keeps the indices distinct. */
  lemma DistinctAppend(s: seq<nat>, x: nat)
    requires Distinct(s) && x !in s
    ensures Distinct(s + [x])
  {
  }

  /** Nothing has been accepted yet: every candidate is unprocessed and the pool is the start pool. */
  lemma StartConsistent(crypto: Crypto, pool0: Pool, txs: seq<Transaction>)
    ensures Consistent(crypto, pool0, txs, seq(|txs|, _ => false), [], pool0)
  {
    AllUnprocessed(|txs|);
  }

  lemma {:induction false} AllUnprocessed(n: nat)
    ensures Unprocessed(seq(n, _ => false)) == n
  {
    if n > 0 {
      assert seq(n, _ => false)[..n - 1] == seq(n - 1, _ => false);
      AllUnprocessed(n - 1);
    }
  }

  /** The working state of `handleTxs` between candidates. */
  datatype Scan = Scan(pool: Pool, processed: seq<bool>, order: seq<nat>)

  predicate Increasing(s: seq<nat>) {
    forall k, l :: 0 <= k < l < |s| ==> s[k] < s[l]
  }

  /** The entries of `s` that are below `k`, in their order in `s`. */
  function Below(s: seq<nat>, k: nat): (r: seq<nat>)
    ensures |r| <= |s|
  {
    if |s| == 0 then []
    else if s[|s| - 1] < k then Below(s[..|s| - 1], k) + [s[|s| - 1]]
    else Below(s[..|s| - 1], k)
  }

  lemma {:induction false} BelowAll(s: seq<nat>, k: nat)
    requires forall j :: 0 <= j < |s| ==> s[j] < k
    ensures Below(s, k) == s
  {
    if |s| > 0 {
      BelowAll(s[..|s| - 1], k);
      assert s[..|s| - 1] + [s[|s| - 1]] == s;
    }
  }

  lemma {:induction false} BelowNone(s: seq<nat>, k: nat)
    requires forall j :: 0 <= j < |s| ==> k <= s[j]
    ensures Below(s, k) == []
  {
    if |s| > 0 {
      BelowNone(s[..|s| - 1], k);
    }
  }

  /** Candidate `k` is invalid against the pool that replaying `order` reaches. */
  predicate Rejected(crypto: Crypto, pool0: Pool, txs: seq<Transaction>, order: seq<nat>, k: nat) {
    && k < |txs|
    && match Replay(crypto, pool0, txs, order)
       case None => false
       case Some(p) => !Valid(crypto, p, txs[k])
  }

  /**
    A pass that began after the acceptances `done`, with the marks
    `processed`, and has visited the candidates below `upto` accepted `added`:
    increasing indices of candidates unprocessed when it began. Every other
    candidate it visited that was unprocessed was invalid against the pool
    reached when the pass came to it: the replay of `done` followed by the
    acceptances this pass made at smaller indices.
  */
  predicate FirstFit(crypto: Crypto, pool0: Pool, txs: seq<Transaction>,
                     processed: seq<bool>, done: seq<nat>, added: seq<nat>, upto: nat) {
    && upto <= |txs| == |processed|
    && (forall j :: 0 <= j < |added| ==> added[j] < upto && !processed[added[j]])
    && Increasing(added)
    && (forall k :: 0 <= k < upto && !processed[k] && k !in added ==>
          Rejected(crypto, pool0, txs, done + Below(added, k), k))
  }

  lemma FirstFitSkip(crypto: Crypto, pool0: Pool, txs: seq<Transaction>, s: Scan, added: seq<nat>, i: nat)
    requires FirstFit(crypto, pool0, txs, s.processed, s.order, added, i) && i < |txs|
    requires !s.processed[i] && i !in added ==> Rejected(crypto, pool0, txs, s.order + added, i)
    ensures FirstFit(crypto, pool0, txs, s.processed, s.order, added, i + 1)
  {
    BelowAll(added, i);
  }

  lemma FirstFitAccept(crypto: Crypto, pool0: Pool, txs: seq<Transaction>, s: Scan, added: seq<nat>, i: nat)
    requires FirstFit(crypto, pool0, txs, s.processed, s.order, added, i) && i < |txs| && !s.processed[i]
    ensures FirstFit(crypto, pool0, txs, s.processed, s.order, added + [i], i + 1)
  {
  }

  /** During a pass, a candidate is processed when it was before the pass or the pass accepted it. */
  lemma ProcessedSplit(crypto: Crypto, pool0: Pool, txs: seq<Transaction>, s: Scan,
                       processed: seq<bool>, added: seq<nat>, pool: Pool, i: nat)
    requires Consistent(crypto, pool0, txs, s.processed, s.order, s.pool)
    requires Consistent(crypto, pool0, txs, processed, s.order + added, pool)
    requires i < |txs|
    ensures processed[i] <==> s.processed[i] || i in added
  {
  }

  /** Replaying a non-empty order starts with a candidate valid against the start pool. */
  lemma {:induction false} ReplayHead(crypto: Crypto, pool0: Pool, txs: seq<Transaction>, order: seq<nat>)
    requires |order| > 0 && Replay(crypto, pool0, txs, order).Some?
    ensures order[0] < |txs| && Valid(crypto, pool0, txs[order[0]])
    decreases |order|
  {
    if |order| > 1 {
      var front := order[..|order| - 1];
      ReplayHead(crypto, pool0, txs, front);
      assert front[0] == order[0];
    }
  }

  /**
    The first acceptance: something is accepted exactly when some candidate is
    valid against the start pool, and then the first accepted index is the
    smallest such candidate.
  */
  predicate FirstAccepted(crypto: Crypto, pool0: Pool, txs: seq<Transaction>, order: seq<nat>) {
    && (|order| > 0 <==> exists i :: 0 <= i < |txs| && Valid(crypto, pool0, txs[i]))
    && (|order| > 0 ==>
          && order[0] < |txs|
          && Valid(crypto, pool0, txs[order[0]])
          && forall i :: 0 <= i < order[0] ==> !Valid(crypto, pool0, txs[i]))
  }

  /** The first pass, which starts with nothing processed, accepts first the smallest valid candidate. */
  lemma FirstPassAccepted(crypto: Crypto, pool0: Pool, txs: seq<Transaction>, order: seq<nat>)
    requires FirstFit(crypto, pool0, txs, seq(|txs|, _ => false), [], order, |txs|)
    requires |order| > 0 && Replay(crypto, pool0, txs, order).Some?
    ensures FirstAccepted(crypto, pool0, txs, order)
  {
    ReplayHead(crypto, pool0, txs, order);
    forall i | 0 <= i < order[0]
      ensures !Valid(crypto, pool0, txs[i])
    {
      BeforeFirstRejected(crypto, pool0, txs, order, i);
    }
  }

  /** A candidate below the first one the first pass accepted was invalid against the start pool. */
  lemma BeforeFirstRejected(crypto: Crypto, pool0: Pool, txs: seq<Transaction>, order: seq<nat>, i: nat)
    requires FirstFit(crypto, pool0, txs, seq(|txs|, _ => false), [], order, |txs|)
    requires |order| > 0 && i < order[0]
    ensures !Valid(crypto, pool0, txs[i])
  {
    assert i !in order;
    BelowNone(order, i);
    assert [] + Below(order, i) == [];
    assert Rejected(crypto, pool0, txs, [], i);
  }

  /** The processed marks after the acceptances `done`: exactly those candidates. */
  function Marks(txs: seq<Transaction>, done: seq<nat>): seq<bool> {
    seq(|txs|, i => i in done)
  }

  lemma ConsistentMarks(crypto: Crypto, pool0: Pool, txs: seq<Transaction>,
                        processed: seq<bool>, order: seq<nat>, pool: Pool)
    requires Consistent(crypto, pool0, txs, processed, order, pool)
    ensures processed == Marks(txs, order)
  {
  }

  /** Candidate `c` is valid against the pool that replaying `order` reaches. */
  predicate Admitted(crypto: Crypto, pool0: Pool, txs: seq<Transaction>, order: seq<nat>, c: nat) {
    && c < |txs|
    && match Replay(crypto, pool0, txs, order)
       case None => false
       case Some(p) => Valid(crypto, p, txs[c])
  }

  /**
    `order` is the acceptances of whole passes, the `j`-th ending at position
    `ends[j]` of `order`. Each pass is first-fit from the marks and the
    acceptances that the passes before it left.
  */
  predicate Passes(crypto: Crypto, pool0: Pool, txs: seq<Transaction>, order: seq<nat>, ends: seq<nat>)
    decreases |ends|
  {
    if |ends| == 0 then order == []
    else
      var start := if |ends| == 1 then 0 else ends[|ends| - 2];
      && ends[|ends| - 1] == |order|
      && start <= |order|
      && Passes(crypto, pool0, txs, order[..start], ends[..|ends| - 1])
      && FirstFit(crypto, pool0, txs, Marks(txs, order[..start]), order[..start], order[start..], |txs|)
  }

  /** A first-fit pass after whole passes extends them by one pass. */
  lemma PassesExtend(crypto: Crypto, pool0: Pool, txs: seq<Transaction>, done: seq<nat>, ends: seq<nat>, added: seq<nat>)
    requires Passes(crypto, pool0, txs, done, ends)
    requires FirstFit(crypto, pool0, txs, Marks(txs, done), done, added, |txs|)
    ensures Passes(crypto, pool0, txs, done + added, ends + [|done + added|])
  {
  }

  /**
    A pass that began after the acceptances `done`, with the marks `processed`,
    reaches candidate `c` unprocessed, having accepted `added` below it, and
    `c` is valid against the pool reached: this is where `handleTxs` goes on
    to update the pool with `c`'s outputs.
  */
  predicate FaultAt(crypto: Crypto, pool0: Pool, txs: seq<Transaction>,
                    processed: seq<bool>, done: seq<nat>, added: seq<nat>, c: nat) {
    && c < |txs| == |processed|
    && !processed[c]
    && FirstFit(crypto, pool0, txs, processed, done, added, c)
    && Admitted(crypto, pool0, txs, done + added, c)
  }

  /** As `FaultAt`, for a pass that follows the whole passes `ends` over `done`. */
  predicate Reached(crypto: Crypto, pool0: Pool, txs: seq<Transaction>,
                    done: seq<nat>, ends: seq<nat>, added: seq<nat>, c: nat) {
    && Passes(crypto, pool0, txs, done, ends)
    && FaultAt(crypto, pool0, txs, Marks(txs, done), done, added, c)
  }

  /** A pass over the state `s` that ends with `order` adds one whole pass. */
  lemma PassAppended(crypto: Crypto, pool0: Pool, txs: seq<Transaction>, s: Scan, ends: seq<nat>, order: seq<nat>)
    requires Consistent(crypto, pool0, txs, s.processed, s.order, s.pool)
    requires Passes(crypto, pool0, txs, s.order, ends)
    requires |s.order| <= |order| && order[..|s.order|] == s.order
    requires FirstFit(crypto, pool0, txs, s.processed, s.order, order[|s.order|..], |txs|)
    ensures Passes(crypto, pool0, txs, order, ends + [|order|])
  {
  }

  /**
    One pass of the do-while body of `handleTxs`: visit the candidates in index
    order and accept each unprocessed one that is valid against the current
    pool. `changed` is false exactly when the pass accepted nothing, and then
    every unprocessed candidate is invalid against the (unchanged) pool. The
    pass is first-fit: it appends increasing indices to the order, and each
    unprocessed candidate it skips was invalid against the pool reached when
    the pass came to it.
  */
  method ScanPass(crypto: Crypto, pool0: Pool, txs: seq<Transaction>, s: Scan)
    returns (r: Result<Scan, Fault>, changed: bool)
    requires Consistent(crypto, pool0, txs, s.processed, s.order, s.pool)
    ensures r.Success? ==> Consistent(crypto, pool0, txs, r.value.processed, r.value.order, r.value.pool)
    ensures r.Success? ==>
      && |s.order| <= |r.value.order|
      && r.value.order[..|s.order|] == s.order
      && FirstFit(crypto, pool0, txs, s.processed, s.order, r.value.order[|s.order|..], |txs|)
    ensures r.Success? && changed ==> Unprocessed(r.value.processed) < Unprocessed(s.processed)
    ensures r.Success? && !changed ==> r.value == s
    ensures r.Success? && !changed ==>
      forall i :: 0 <= i < |txs| && !s.processed[i] ==> !Valid(crypto, s.pool, txs[i])
    ensures r.Failure? ==>
      && r.error.IndexOutOfBounds?
      && r.error.candidate < |txs|
      && |txs[r.error.candidate].outputs| == r.error.index < |txs[r.error.candidate].inputs|
      && exists added :: FaultAt(crypto, pool0, txs, s.processed, s.order, added, r.error.candidate)
  {
    var cur := s;
    ghost var added: seq<nat> := [];
    changed := false;
    var i: nat := 0;
    while i < |txs|
      invariant PassInvariant(crypto, pool0, txs, s, cur, added, i, changed)
    {
      var next, accepted, added' := Visit(crypto, pool0, txs, s, cur, added, i, changed);
      if next.Failure? {
        FaultKeepsPass(crypto, pool0, txs, s, cur, added, i, changed);
        return next, true;
      }
      added := added';
      changed := changed || accepted;
      cur := next.value;
      i := i + 1;
    }
    assert cur.order[|s.order|..] == added;
    return Success(cur), changed;
  }

  /**
    What holds after a pass that started from `s` has visited the candidates
    below `i`: `cur` is the bookkeeping so far, `added` the indices accepted in
    this pass, and `changed` says whether there are any.
  */
  predicate PassInvariant(crypto: Crypto, pool0: Pool, txs: seq<Transaction>, s: Scan, cur: Scan,
                          added: seq<nat>, i: nat, changed: bool) {
    && Consistent(crypto, pool0, txs, s.processed, s.order, s.pool)
    && Consistent(crypto, pool0, txs, cur.processed, cur.order, cur.pool)
    && cur.order == s.order + added
    && FirstFit(crypto, pool0, txs, s.processed, s.order, added, i)
    && (changed ==> Unprocessed(cur.processed) < Unprocessed(s.processed))
    && (!changed ==> cur == s)
    && (!changed ==> forall k :: 0 <= k < i && !cur.processed[k] ==> !Valid(crypto, cur.pool, txs[k]))
  }

  /**
    The loop body of a pass at candidate `i`: an unprocessed candidate valid
    against the current pool is accepted, marked and applied as written.
  */
  method Visit(crypto: Crypto, pool0: Pool, txs: seq<Transaction>, s: Scan, cur: Scan,
               ghost added: seq<nat>, i: nat, ghost changed: bool)
    returns (r: Result<Scan, Fault>, accepted: bool, ghost added': seq<nat>)
    requires PassInvariant(crypto, pool0, txs, s, cur, added, i, changed) && i < |txs|
    ensures r.Success? ==> PassInvariant(crypto, pool0, txs, s, r.value, added', i + 1, changed || accepted)
    ensures r.Success? ==> (accepted <==> !cur.processed[i] && Valid(crypto, cur.pool, txs[i]))
    ensures r.Failure? ==>
      && r.error == IndexOutOfBounds(i, |txs[i].outputs|) && |txs[i].outputs| < |txs[i].inputs|
      && !cur.processed[i] && Valid(crypto, cur.pool, txs[i])
  {
    added' := added;
    if cur.processed[i] {
      SkipKeepsPass(crypto, pool0, txs, s, cur, added, i, changed);
      return Success(cur), false, added';
    }
    var ok := IsValidTx(crypto, cur.pool, txs[i]);
    if !ok {
      SkipKeepsPass(crypto, pool0, txs, s, cur, added, i, changed);
      return Success(cur), false, added';
    }
    var next := ApplyAsWritten(cur.pool, txs[i]);
    if next.None? {
      return Failure(IndexOutOfBounds(i, |txs[i].outputs|)), true, added';
    }
    AcceptKeepsPass(crypto, pool0, txs, s, cur, added, i, changed);
    added' := added + [i];
    return Success(Scan(next.value, cur.processed[i := true], cur.order + [i])), true, added';
  }

  /** A candidate that is unprocessed and valid when the pass reaches it is where a fault can happen. */
  lemma FaultKeepsPass(crypto: Crypto, pool0: Pool, txs: seq<Transaction>, s: Scan, cur: Scan,
                       added: seq<nat>, i: nat, changed: bool)
    requires PassInvariant(crypto, pool0, txs, s, cur, added, i, changed) && i < |txs|
    requires !cur.processed[i] && Valid(crypto, cur.pool, txs[i])
    ensures FaultAt(crypto, pool0, txs, s.processed, s.order, added, i)
  {
  }

  /** Passing over a processed or invalid candidate keeps the pass invariant. */
  lemma SkipKeepsPass(crypto: Crypto, pool0: Pool, txs: seq<Transaction>, s: Scan, cur: Scan,
                      added: seq<nat>, i: nat, changed: bool)
    requires PassInvariant(crypto, pool0, txs, s, cur, added, i, changed) && i < |txs|
    requires cur.processed[i] || !Valid(crypto, cur.pool, txs[i])
    ensures PassInvariant(crypto, pool0, txs, s, cur, added, i + 1, changed)
  {
    ProcessedSplit(crypto, pool0, txs, s, cur.processed, added, cur.pool, i);
    FirstFitSkip(crypto, pool0, txs, s, added, i);
  }

  /** Accepting an unprocessed candidate valid against the current pool keeps the pass invariant. */
  lemma AcceptKeepsPass(crypto: Crypto, pool0: Pool, txs: seq<Transaction>, s: Scan, cur: Scan,
                        added: seq<nat>, i: nat, changed: bool)
    requires PassInvariant(crypto, pool0, txs, s, cur, added, i, changed) && i < |txs|
    requires !cur.processed[i] && Valid(crypto, cur.pool, txs[i])
    requires |txs[i].inputs| <= |txs[i].outputs|
    ensures PassInvariant(crypto, pool0, txs, s,
                          Scan(ApplyAsWritten(cur.pool, txs[i]).value, cur.processed[i := true], cur.order + [i]),
                          added + [i], i + 1, true)
  {
    ProcessedSplit(crypto, pool0, txs, s, cur.processed, added, cur.pool, i);
    AcceptKeepsConsistent(crypto, pool0, txs, cur.processed, cur.order, cur.pool, i);
    FirstFitAccept(crypto, pool0, txs, s, added, i);
    AppendAssociates(s.order, added, i);
  }

  lemma AppendAssociates(a: seq<nat>, b: seq<nat>, x: nat)
    ensures a + (b + [x]) == (a + b) + [x]
  {
  }

  /**
    What holds between the passes of `handleTxs`: the bookkeeping, the whole
    passes `ends` made so far, the fixed point once a pass changes nothing,
    and, after the first pass, its first acceptance.
  */
  predicate EpochInvariant(crypto: Crypto, pool0: Pool, txs: seq<Transaction>, s: Scan,
                           ends: seq<nat>, first: bool, changed: bool) {
    && Consistent(crypto, pool0, txs, s.processed, s.order, s.pool)
    && Passes(crypto, pool0, txs, s.order, ends)
    && (!changed ==> forall i :: 0 <= i < |txs| && !s.processed[i] ==> !Valid(crypto, s.pool, txs[i]))
    && (first ==> changed && s == Scan(pool0, seq(|txs|, _ => false), []))
    && (!first ==> FirstAccepted(crypto, pool0, txs, s.order))
    && (!first && changed ==> |s.order| > 0)
  }

  /** A pass that succeeds, with the effect `ScanPass` promises, keeps the invariant between passes. */
  lemma PassKeepsEpoch(crypto: Crypto, pool0: Pool, txs: seq<Transaction>, s: Scan, ends: seq<nat>, first: bool,
                       next: Scan, changed: bool)
    requires |s.order| <= |next.order| && next.order[..|s.order|] == s.order
    requires FirstFit(crypto, pool0, txs, s.processed, s.order, next.order[|s.order|..], |txs|)
    requires EpochInvariant(crypto, pool0, txs, s, ends, first, true)
    requires Consistent(crypto, pool0, txs, next.processed, next.order, next.pool)
    requires changed ==> Unprocessed(next.processed) < Unprocessed(s.processed)
    requires !changed ==> next == s
    requires !changed ==> forall i :: 0 <= i < |txs| && !s.processed[i] ==> !Valid(crypto, s.pool, txs[i])
    ensures EpochInvariant(crypto, pool0, txs, next, ends + [|next.order|], false, changed)
  {
    PassAppended(crypto, pool0, txs, s, ends, next.order);
    if first {
      if |next.order| > 0 {
        assert next.order[|s.order|..] == next.order;
        FirstPassAccepted(crypto, pool0, txs, next.order);
      }
    } else {
      assert next.order[0] == next.order[..|s.order|][0];
    }
  }

  /**
    `handleTxs`: repeat passes over the candidates in index order; each
    unprocessed candidate valid against the current pool is accepted, marked
    and applied as written; stop after a pass that accepts nothing.

    On success the acceptances are a replay from the handler's pool that ends
    in the new pool (each was valid when accepted), no candidate is accepted
    twice, and every candidate left out is invalid against the final pool.
  */
  method HandleTxs(h: Handler, crypto: Crypto, possibleTxs: Option<seq<Transaction>>) returns (r: Result<Epoch, Fault>)
    ensures possibleTxs.None? <==> r == Failure(NullPointer)
    ensures possibleTxs == Some([]) ==> r == Success(Epoch([], [], h))
    ensures r.Success? ==>
      var txs := possibleTxs.value;
      var e := r.value;
      && (forall k :: 0 <= k < |e.order| ==> e.order[k] < |txs|)
      && Distinct(e.order)
      && e.accepted == Select(txs, e.order)
      && Replay(crypto, h.pool, txs, e.order) == Some(e.handler.pool)
      && (forall i :: 0 <= i < |txs| && i !in e.order ==> !Valid(crypto, e.handler.pool, txs[i]))
      && FirstAccepted(crypto, h.pool, txs, e.order)
      && exists ends :: Passes(crypto, h.pool, txs, e.order, ends)
    ensures r.Failure? && r.error.IndexOutOfBounds? ==>
      var c := r.error.candidate;
      && c < |possibleTxs.value|
      && |possibleTxs.value[c].outputs| == r.error.index < |possibleTxs.value[c].inputs|
      && exists done, ends, added :: Reached(crypto, h.pool, possibleTxs.value, done, ends, added, c)
    ensures (possibleTxs.Some? && forall i :: 0 <= i < |possibleTxs.value| ==>
      |possibleTxs.value[i].inputs| <= |possibleTxs.value[i].outputs|) ==> r.Success?
  {
    if possibleTxs.None? {
      return Failure(NullPointer);
    }
    var txs := possibleTxs.value;
    var s := Scan(h.pool, seq(|txs|, _ => false), []);
    StartConsistent(crypto, h.pool, txs);
    var changed := true;
    ghost var first := true;
    ghost var ends: seq<nat> := [];
    while changed
      invariant EpochInvariant(crypto, h.pool, txs, s, ends, first, changed)
      decreases Unprocessed(s.processed) + (if changed then 1 else 0)
    {
      var next, changed' := ScanPass(crypto, h.pool, txs, s);
      if next.Failure? {
        ghost var added :| FaultAt(crypto, h.pool, txs, s.processed, s.order, added, next.error.candidate);
        ConsistentMarks(crypto, h.pool, txs, s.processed, s.order, s.pool);
        assert Reached(crypto, h.pool, txs, s.order, ends, added, next.error.candidate);
        return Failure(next.error);
      }
      PassKeepsEpoch(crypto, h.pool, txs, s, ends, first, next.value, changed');
      ghost var passEnd: nat := |next.value.order|;
      ends := ends + [passEnd];
      s, changed := next.value, changed';
      first := false;
    }
    return Success(Epoch(Select(txs, s.order), s.order, Handler(s.pool)));
  }
}
