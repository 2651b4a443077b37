/**
  The ledger vocabulary shared by both handlers: transactions, unspent outputs
  (UTXOs), the pool of unspent outputs, and the two pool updates a handler
  performs when it accepts a transaction (spend its inputs, create its outputs).

  The `Transaction`, `UTXO` and `UTXOPool` classes are not part of this model;
  they are represented by plain datatypes and a finite map.
*/
module Ledger {

  newtype byte = x: int | 0 <= x < 256

  type Bytes = seq<byte>

  /** A transaction hash; computed elsewhere and treated as an opaque field. */
  type Hash = Bytes

  /** An encoded public key; only ever handed to the signature oracle. */
  type PublicKey = Bytes

  /** Input: the output it claims (producing hash, output index) and its signature. */
  datatype Input = Input(prevTxHash: Hash, outputIndex: int, signature: Bytes)

  /** Output: a value and the key that owns it. Values are exact integers. */
  datatype Output = Output(value: int, address: PublicKey)

  datatype Transaction = Transaction(hash: Hash, inputs: seq<Input>, outputs: seq<Output>)

  /** The identifier of an unspent output: producing transaction hash and output index. */
  datatype UTXO = UTXO(txHash: Hash, index: int)

  /** The pool of currently spendable outputs. */
  type Pool = map<UTXO, Output>

  /**
    The cryptographic collaborators, as uninterpreted total functions:
    `verify(key, message, signature)` is the signature check and
    `rawDataToSign(tx, i)` is the message input `i` of `tx` must sign.
  */
  datatype Crypto = Crypto(
    verify: (PublicKey, Bytes, Bytes) -> bool,
    rawDataToSign: (Transaction, int) -> Bytes)

  /** The UTXO an input claims. */
  function Claimed(input: Input): UTXO {
    UTXO(input.prevTxHash, input.outputIndex)
  }

  /** Every UTXO claimed by some input of `ins`. */
  function ClaimedSet(ins: seq<Input>): set<UTXO> {
    set i | 0 <= i < |ins| :: Claimed(ins[i])
  }

  /** True iff `u` is one of the first `count` outputs a transaction with hash `hash` creates. */
  predicate CreatedBy(u: UTXO, hash: Hash, count: nat) {
    u.txHash == hash && 0 <= u.index < count
  }

  /** The value of `u` in `pool`, or 0 when it is not there. */
  function ValueIn(pool: Pool, u: UTXO): int {
    if u in pool then pool[u].value else 0
  }

  /** Sum of the pool values of the outputs `ins` claim; claims missing from the pool add 0. */
  function ClaimedValue(pool: Pool, ins: seq<Input>): int
    decreases |ins|
  {
    if |ins| == 0 then 0
    else ClaimedValue(pool, ins[..|ins| - 1]) + ValueIn(pool, Claimed(ins[|ins| - 1]))
  }

  /** Sum of the values of `outs`. */
  function OutputSum(outs: seq<Output>): int
    decreases |outs|
  {
    if |outs| == 0 then 0
    else OutputSum(outs[..|outs| - 1]) + outs[|outs| - 1].value
  }

  /** Spend every input, first to last: each claimed UTXO leaves the pool, nothing else changes. */
  function RemoveInputs(pool: Pool, ins: seq<Input>): (r: Pool)
    ensures r == pool - ClaimedSet(ins)
    decreases |ins|
  {
    if |ins| == 0 then pool
    else
      var front := ins[..|ins| - 1];
      assert ClaimedSet(ins) == ClaimedSet(front) + {Claimed(ins[|ins| - 1])} by {
        forall u | u in ClaimedSet(ins) ensures u in ClaimedSet(front) + {Claimed(ins[|ins| - 1])} {
          var i :| 0 <= i < |ins| && u == Claimed(ins[i]);
          if i < |ins| - 1 {
            assert front[i] == ins[i];
          }
        }
        forall u | u in ClaimedSet(front) ensures u in ClaimedSet(ins) {
          var i :| 0 <= i < |front| && u == Claimed(front[i]);
          assert ins[i] == front[i];
        }
      }
      RemoveInputs(pool, front) - {Claimed(ins[|ins| - 1])}
  }

  /**
    Create the first `count` outputs of a transaction with hash `hash`, indices
    0 to count - 1: each `(hash, j)` maps to `outs[j]`, every other key keeps its entry.
  */
  function AddOutputs(pool: Pool, hash: Hash, outs: seq<Output>, count: nat): (r: Pool)
    requires count <= |outs|
    ensures forall j :: 0 <= j < count ==> UTXO(hash, j) in r && r[UTXO(hash, j)] == outs[j]
    ensures forall u :: !CreatedBy(u, hash, count) ==> (u in r <==> u in pool)
    ensures forall u :: u in r && !CreatedBy(u, hash, count) ==> r[u] == pool[u]
    decreases count
  {
    if count == 0 then pool
    else AddOutputs(pool, hash, outs, count - 1)[UTXO(hash, count - 1) := outs[count - 1]]
  }

  /**
    Accept `tx`: spend its inputs, then create one UTXO per output.
    This is the update `MaxFeeTxHandler.handleTxs` performs.
  */
  function ApplyTx(pool: Pool, tx: Transaction): (r: Pool)
    ensures forall j :: 0 <= j < |tx.outputs| ==> UTXO(tx.hash, j) in r && r[UTXO(tx.hash, j)] == tx.outputs[j]
    ensures forall u :: u in ClaimedSet(tx.inputs) && !CreatedBy(u, tx.hash, |tx.outputs|) ==> u !in r
    ensures forall u :: u !in ClaimedSet(tx.inputs) && !CreatedBy(u, tx.hash, |tx.outputs|) ==>
      (u in r <==> u in pool) && (u in r ==> r[u] == pool[u])
  {
    AddOutputs(RemoveInputs(pool, tx.inputs), tx.hash, tx.outputs, |tx.outputs|)
  }

  /** Every UTXO claimed by some transaction of `txs`. */
  function SpentBy(txs: seq<Transaction>): set<UTXO> {
    set k, i | 0 <= k < |txs| && 0 <= i < |txs[k].inputs| :: Claimed(txs[k].inputs[i])
  }

  /** True iff `u` is one of the outputs some transaction of `txs` creates. */
  predicate CreatedByAny(u: UTXO, txs: seq<Transaction>) {
    exists k :: 0 <= k < |txs| && CreatedBy(u, txs[k].hash, |txs[k].outputs|)
  }

  /** Accept `txs` one after another, first to last. */
  function ApplyAll(pool: Pool, txs: seq<Transaction>): Pool
    decreases |txs|
  {
    if |txs| == 0 then pool
    else ApplyTx(ApplyAll(pool, txs[..|txs| - 1]), txs[|txs| - 1])
  }

  /**
    Applying a batch touches only the UTXOs the batch spends or creates:
    every other key keeps its presence and its value.
  */
  lemma {:induction false} ApplyAllFrame(pool: Pool, txs: seq<Transaction>, u: UTXO)
    requires u !in SpentBy(txs) && !CreatedByAny(u, txs)
    ensures u in ApplyAll(pool, txs) <==> u in pool
    ensures u in pool ==> ApplyAll(pool, txs)[u] == pool[u]
    decreases |txs|
  {
    if |txs| > 0 {
      var front := txs[..|txs| - 1];
      var last := txs[|txs| - 1];
      assert forall k :: 0 <= k < |front| ==> front[k] == txs[k];
      ApplyAllFrame(pool, front, u);
      assert !CreatedBy(u, last.hash, |last.outputs|);
    }
  }
}
