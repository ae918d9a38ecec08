/** Transaction records (definition.h), reduced to what the clustering heuristics read:
    each input's spending address, coinbase flag and value, and each output's address and
    value. Values are modelled as naturals. */
module Definition {

  /** A wallet address, the key of every clustering map. */
  type Wallet = string

  datatype TxInput = TxInput(address: Wallet, isCoinbase: bool, value: nat)

  /** An output carries exactly one address (the source reads `addresses[0]` only). */
  datatype TxOutput = TxOutput(address: Wallet, value: nat)

  datatype Transaction = Transaction(vin: seq<TxInput>, vout: seq<TxOutput>)

  /** The heuristics read `vin[0]` of every transaction unconditionally. */
  predicate WellFormed(tx: Transaction) {
    |tx.vin| > 0
  }

  predicate AllWellFormed(block: seq<Transaction>) {
    forall k | 0 <= k < |block| :: WellFormed(block[k])
  }

  function InputAddresses(tx: Transaction): (s: seq<Wallet>)
    ensures |s| == |tx.vin|
    ensures forall k | 0 <= k < |s| :: s[k] == tx.vin[k].address
  {
    seq(|tx.vin|, k requires 0 <= k < |tx.vin| => tx.vin[k].address)
  }

  function OutputAddresses(tx: Transaction): (s: seq<Wallet>)
    ensures |s| == |tx.vout|
    ensures forall k | 0 <= k < |s| :: s[k] == tx.vout[k].address
  {
    seq(|tx.vout|, k requires 0 <= k < |tx.vout| => tx.vout[k].address)
  }

  function InputValues(tx: Transaction): (s: seq<nat>)
    ensures |s| == |tx.vin|
    ensures forall k | 0 <= k < |s| :: s[k] == tx.vin[k].value
  {
    seq(|tx.vin|, k requires 0 <= k < |tx.vin| => tx.vin[k].value)
  }

  function OutputValues(tx: Transaction): (s: seq<nat>)
    ensures |s| == |tx.vout|
    ensures forall k | 0 <= k < |s| :: s[k] == tx.vout[k].value
  {
    seq(|tx.vout|, k requires 0 <= k < |tx.vout| => tx.vout[k].value)
  }

  function SetOf(s: seq<Wallet>): (r: set<Wallet>)
    ensures forall w :: w in r <==> w in s
  {
    set w | w in s
  }

  /** Extending a sequence by one wallet extends its set by that wallet. */
  lemma SetOfSnoc(s: seq<Wallet>, w: Wallet)
    ensures SetOf(s + [w]) == SetOf(s) + {w}
  {
  }
}
