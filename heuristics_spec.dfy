/** What one pass of the heuristics does to the clustering state (heuristics.cpp), as
    functions on values. Each function follows the source's statements, including the
    `operator[]` side effects modelled in `Registry`; the class `Heuristics.Clustering`
    runs the same steps in place and is proved equal to these functions. */
module HeuristicsSpec {
  import opened Definition
  import opened Entities
  import opened Registry
  import opened Sorting

  /** Datatype used for the decision of heuristics 2/3: which wallet, if any, joins
      the first input's entity. */
  datatype Option<T> = None | Some(value: T)

  // ---------------------------------------------------------------- reuse counts

  /** The value `reuseFrequency[w]` reads (0 for a wallet never counted). */
  function Freq(freq: map<Wallet, int>, w: Wallet): int {
    if w in freq then freq[w] else 0
  }

  /** `reuseFrequency[a]++` for every output address, in order (heuristics.cpp:14-17). */
  function CountOutputs(freq: map<Wallet, int>, addrs: seq<Wallet>): map<Wallet, int>
    decreases |addrs|
  {
    if addrs == [] then freq
    else
      var f := CountOutputs(freq, addrs[..|addrs| - 1]);
      var a := addrs[|addrs| - 1];
      f[a := Freq(f, a) + 1]
  }

  // ---------------------------------------------------------------- heuristic 1

  /** `entitiesToMerge` before sorting: the entity of every mapped input address, in input
      order, with repetitions (heuristics.cpp:41-48). */
  function MappedIds(w2e: map<Wallet, nat>, addrs: seq<Wallet>): (ids: seq<nat>)
    ensures |ids| <= |addrs|
    ensures forall id :: id in ids <==> exists a | a in addrs && a in w2e :: w2e[a] == id
    decreases |addrs|
  {
    if addrs == [] then []
    else
      var prefix, last := addrs[..|addrs| - 1], addrs[|addrs| - 1];
      assert addrs == prefix + [last];
      MappedIds(w2e, prefix) + (if last in w2e then [w2e[last]] else [])
  }

  /** Every wallet of the entities `ids` that exist in `ents`. */
  function WalletsOf(ents: map<nat, set<Wallet>>, ids: seq<nat>): set<Wallet> {
    set id, w | id in ids && id in ents && w in ents[id] :: w
  }

  /** One round of the merge loop (heuristics.cpp:58-63): read the wallets of `entities[id]`
      (default-constructing it if missing), push `id` to the free queue, erase it. */
  function MergeOne(s: State, collected: set<Wallet>, id: nat): (State, set<Wallet>) {
    var s1 := Slot(s, id);
    (s1.(entities := s1.entities - {id}, pool := Released(s1.pool, id)), collected + s1.entities[id])
  }

  /** The merge loop over `ids` (the sorted ids after the first), in order. */
  function MergeAll(s: State, collected: set<Wallet>, ids: seq<nat>): (State, set<Wallet>)
    decreases |ids|
  {
    if ids == [] then (s, collected)
    else
      var r := MergeAll(s, collected, ids[..|ids| - 1]);
      MergeOne(r.0, r.1, ids[|ids| - 1])
  }

  /** `commonInputOwnershipHeuritics` (heuristics.cpp:37-80). */
  function CommonInput(s: State, tx: Transaction): State
    requires WellFormed(tx)
  {
    var ins := InputAddresses(tx);
    var m := MappedIds(s.walletToEntity, ins);
    if m == [] then CreateEntity(s, SetOf(ins))
    else
      var sorted := SortAscending(m);
      var r := MergeAll(s, {}, sorted[1..]);
      Attach(Slot(r.0, sorted[0]), sorted[0], SetOf(ins) + r.1)
  }

  // ---------------------------------------------------------------- heuristics 2 and 3

  /** `walletToEntity[vin[0]]` gets `target` (both in `entities` and in the index), or
      nothing happens. The lock is modelled as always acquired. */
  function ApplyTarget(s: State, tx: Transaction, target: Option<Wallet>): State
    requires WellFormed(tx)
  {
    match target
    case None => s
    case Some(w) =>
      var r := EntityOf(s, tx.vin[0].address);
      Assign(r.0, r.1, w)
  }

  /** The wallet the change-address rule attaches, by number of outputs
      (heuristics.cpp:85-105). */
  function ChangeAddressTarget(freq: map<Wallet, int>, tx: Transaction): Option<Wallet>
    requires WellFormed(tx)
  {
    if |tx.vout| == 1 then Some(tx.vout[0].address)
    else if |tx.vout| != 2 then None
    else
      var a1, a2 := tx.vout[0].address, tx.vout[1].address;
      var f1, f2 := Freq(freq, a1), Freq(freq, a2);
      if (f1 != 1 && f2 < 1) || (f1 < 1 && f2 != 1) then None
      else if tx.vin[0].address == a1 || tx.vin[0].address == a2 then None
      else Some(if f1 == 1 then a1 else a2)
  }

  /** `changeAddressHeuristics` (heuristics.cpp:82-112). */
  function ChangeAddress(s: State, freq: map<Wallet, int>, tx: Transaction): State
    requires WellFormed(tx)
  {
    ApplyTarget(s, tx, ChangeAddressTarget(freq, tx))
  }

  /** The running minimum `inMin` after scanning `vals` (heuristics.cpp:130, 133). */
  function MinValue(vals: seq<nat>): (m: nat)
    requires |vals| > 0
    ensures m in vals && forall v | v in vals :: m <= v
    decreases |vals|
  {
    if |vals| == 1 then vals[0]
    else
      var p := vals[..|vals| - 1];
      assert vals == p + [vals[|vals| - 1]];
      var m := MinValue(p);
      if vals[|vals| - 1] < m then vals[|vals| - 1] else m
  }

  /** The running maximum `outMax` after scanning `vals` (heuristics.cpp:130, 134). */
  function MaxValue(vals: seq<nat>): (m: nat)
    requires |vals| > 0
    ensures m in vals && forall v | v in vals :: v <= m
    decreases |vals|
  {
    if |vals| == 1 then vals[0]
    else
      var p := vals[..|vals| - 1];
      assert vals == p + [vals[|vals| - 1]];
      var m := MaxValue(p);
      if vals[|vals| - 1] > m then vals[|vals| - 1] else m
  }

  /** The `sum` the source accumulates: the first value, plus each later value that is below
      the running minimum at the moment it is scanned, because the comma operator puts the
      addition inside the `if` (heuristics.cpp:132-133). */
  function NarrowSum(vals: seq<nat>): nat
    requires |vals| > 0
    decreases |vals|
  {
    if |vals| == 1 then vals[0]
    else
      var p := vals[..|vals| - 1];
      var v := vals[|vals| - 1];
      NarrowSum(p) + (if v < MinValue(p) then v else 0)
  }

  /** The total of `vals`, the sum the rule is described with. */
  function Sum(vals: seq<nat>): nat
    decreases |vals|
  {
    if vals == [] then 0 else Sum(vals[..|vals| - 1]) + vals[|vals| - 1]
  }

  /** The output the script-chain rule treats as change: the smaller one, `vout[0]` on a tie
      (heuristics.cpp:123-128). */
  function ChangeOutput(tx: Transaction): Wallet
    requires |tx.vout| == 2
  {
    if tx.vout[0].value > tx.vout[1].value then tx.vout[1].address else tx.vout[0].address
  }

  /** The wallet the script-chain rule attaches (heuristics.cpp:115-135). */
  function ScriptChainTarget(tx: Transaction): Option<Wallet> {
    if |tx.vin| < 2 || |tx.vout| != 2 then None
    else
      var ins, outs := InputValues(tx), OutputValues(tx);
      if NarrowSum(ins) - MinValue(ins) > MaxValue(outs) then None
      else Some(ChangeOutput(tx))
  }

  /** `scriptChainMergeHeuristics` (heuristics.cpp:114-143). */
  function ScriptChain(s: State, tx: Transaction): State
    requires WellFormed(tx)
  {
    ApplyTarget(s, tx, ScriptChainTarget(tx))
  }

  // ---------------------------------------------------------------- coinbase and the pass

  /** `coinbaseOutput` (heuristics.cpp:145-155): one new entity holding the output addresses. */
  function Coinbase(s: State, tx: Transaction): State {
    CreateEntity(s, SetOf(OutputAddresses(tx)))
  }

  /** One iteration of `runHeuristics` (heuristics.cpp:12-33), the two threads run one after
      the other. */
  function Step(s: State, freq: map<Wallet, int>, tx: Transaction): (State, map<Wallet, int>)
    requires WellFormed(tx)
  {
    var f := CountOutputs(freq, OutputAddresses(tx));
    if tx.vin[0].isCoinbase then (Coinbase(s, tx), f)
    else (ScriptChain(ChangeAddress(CommonInput(s, tx), f, tx), tx), f)
  }

  /** `runHeuristics` over a block. */
  function Run(s: State, freq: map<Wallet, int>, block: seq<Transaction>): (State, map<Wallet, int>)
    requires AllWellFormed(block)
    decreases |block|
  {
    if block == [] then (s, freq)
    else
      var r := Run(s, freq, block[..|block| - 1]);
      Step(r.0, r.1, block[|block| - 1])
  }

  /** The merge of `tx` on state `s` meets no id twice. */
  predicate CleanMerge(s: State, tx: Transaction)
    requires WellFormed(tx)
  {
    tx.vin[0].isCoinbase || Distinct(MappedIds(s.walletToEntity, InputAddresses(tx)))
  }

  /** No transaction of the block meets a repeated id when it merges. */
  predicate CleanRun(s: State, freq: map<Wallet, int>, block: seq<Transaction>)
    requires AllWellFormed(block)
    decreases |block|
  {
    block == [] ||
    (var r := Run(s, freq, block[..|block| - 1]);
     CleanRun(s, freq, block[..|block| - 1]) && CleanMerge(r.0, block[|block| - 1]))
  }
}
