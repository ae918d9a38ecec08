/** The heuristics as the source runs them: in place on the clustering maps (heuristics.h,
    heuristics.cpp). `Clustering` holds the three maps that `runHeuristics` receives by
    reference and the id allocator that `Entity()` draws from. Every method is proved to
    leave the state that the matching function of `HeuristicsSpec` computes, so the
    properties proved there hold of these methods. The two heuristics the source runs on
    threads under a `try_lock` run here one after the other, each taking the lock. */
module Heuristics {
  import opened Definition
  import opened Entities
  import opened Registry
  import opened Sorting
  import opened HeuristicsSpec

  /** After scanning `vals[..i]`, `inMin` and `sum` hold the running minimum and the narrowed
      sum of the scanned prefix. */
  predicate Scanned(vals: seq<nat>, i: nat, inMin: nat, sum: nat)
    requires 0 < i <= |vals|
  {
    inMin == MinValue(vals[..i]) && sum == NarrowSum(vals[..i])
  }

  /** Scanning one more value updates the minimum and the narrowed sum as the loop body does. */
  lemma ScanStep(vals: seq<nat>, i: nat, inMin: nat, sum: nat)
    requires 0 < i < |vals| && Scanned(vals, i, inMin, sum)
    ensures vals[i] < inMin ==> Scanned(vals, i + 1, vals[i], sum + vals[i])
    ensures vals[i] >= inMin ==> Scanned(vals, i + 1, inMin, sum)
  {
    assert vals[..i + 1][..i] == vals[..i];
  }

  /** The running minimum and the narrowed sum over the input values (heuristics.cpp:130,
      132-133): `sum` grows only when a value lowers the minimum. */
  method ScanInputs(tx: Transaction) returns (inMin: nat, sum: nat)
    requires |tx.vin| > 0
    ensures inMin == MinValue(InputValues(tx)) && sum == NarrowSum(InputValues(tx))
  {
    var ins := InputValues(tx);
    inMin := ins[0];
    sum := ins[0];
    var i := 1;
    while i < |ins|
      invariant 1 <= i <= |ins|
      invariant Scanned(ins, i, inMin, sum)
    {
      ScanStep(ins, i, inMin, sum);
      var v := ins[i];
      if v < inMin {
        inMin := v;
        sum := sum + v;
      }
      i := i + 1;
    }
    assert ins[..|ins|] == ins;
  }

  /** Scanning one more value updates the running maximum as the loop body does. */
  lemma MaxStep(vals: seq<nat>, i: nat)
    requires 0 < i < |vals|
    ensures MaxValue(vals[..i + 1]) == if vals[i] > MaxValue(vals[..i]) then vals[i] else MaxValue(vals[..i])
  {
    assert vals[..i + 1][..i] == vals[..i];
  }

  /** The running maximum over the output values (heuristics.cpp:130, 134). */
  method ScanOutputs(tx: Transaction) returns (outMax: nat)
    requires |tx.vout| > 0
    ensures outMax == MaxValue(OutputValues(tx))
  {
    var outs := OutputValues(tx);
    outMax := outs[0];
    var i := 1;
    while i < |outs|
      invariant 1 <= i <= |outs|
      invariant outMax == MaxValue(outs[..i])
    {
      MaxStep(outs, i);
      var v := outs[i];
      if v > outMax {
        outMax := v;
      }
      i := i + 1;
    }
    assert outs[..|outs|] == outs;
  }

  /** `addrs` followed by the wallets of `ws`, in some order (heuristics.cpp:58-60). */
  method AppendWallets(addrs: seq<Wallet>, ws: set<Wallet>) returns (r: seq<Wallet>)
    ensures SetOf(r) == SetOf(addrs) + ws && |r| == |addrs| + |ws| && r[..|addrs|] == addrs
  {
    r := addrs;
    var rest := ws;
    while rest != {}
      invariant SetOf(r) + rest == SetOf(addrs) + ws && |r| + |rest| == |addrs| + |ws|
      invariant rest <= ws && |addrs| <= |r| && r[..|addrs|] == addrs
      decreases rest
    {
      var w :| w in rest;
      SetOfSnoc(r, w);
      assert (r + [w])[..|addrs|] == r[..|addrs|];
      r := r + [w];
      rest := rest - {w};
    }
  }

  class Clustering {
    var entities: map<nat, set<Wallet>>
    var walletToEntity: map<Wallet, nat>
    var reuseFrequency: map<Wallet, int>
    const pool: IdAllocator

    /** The clustering maps and the allocator, as a value. */
    function Reg(): State
      reads this, pool
    {
      State(entities, walletToEntity, pool.Pool())
    }

    /** Empty maps, as the program starts them, over the given allocator. */
    constructor (pool: IdAllocator)
      ensures entities == map[] && walletToEntity == map[] && reuseFrequency == map[]
      ensures this.pool == pool
    {
      entities := map[];
      walletToEntity := map[];
      reuseFrequency := map[];
      this.pool := pool;
    }

    /** `entities[id]` used as an lvalue: a missing id gets a default-constructed entity,
        whose construction draws an id from the allocator. */
    method EntitySlot(id: nat)
      modifies this, pool
      ensures Reg() == Slot(old(Reg()), id) && reuseFrequency == old(reuseFrequency)
    {
      if id !in entities {
        var e := new Entity(pool);
        entities := entities[id := e.wallets];
      }
    }

    /** `walletToEntity[w]` read through `operator[]`: a missing wallet is inserted with 0. */
    method EntityIdOf(w: Wallet) returns (id: nat)
      modifies this
      ensures (Reg(), id) == EntityOf(old(Reg()), w) && reuseFrequency == old(reuseFrequency)
    {
      if w !in walletToEntity {
        walletToEntity := walletToEntity[w := 0];
      }
      id := walletToEntity[w];
    }

    /** `entities[id].addWallet(w); walletToEntity[w] = id;` */
    method AddToEntity(id: nat, w: Wallet)
      modifies this, pool
      ensures Reg() == Assign(old(Reg()), id, w) && reuseFrequency == old(reuseFrequency)
    {
      EntitySlot(id);
      entities := entities[id := entities[id] + {w}];
      walletToEntity := walletToEntity[w := id];
    }

    /** `Entity entity;`, each of `addrs` added to it and mapped to its id, then
        `entities.insert` (heuristics.cpp:72-78, 148-154). */
    method NewEntity(addrs: seq<Wallet>)
      modifies this, pool
      ensures Reg() == CreateEntity(old(Reg()), SetOf(addrs)) && reuseFrequency == old(reuseFrequency)
    {
      var entity := new Entity(pool);
      var index := entity.GetId();
      var i := 0;
      while i < |addrs|
        invariant 0 <= i <= |addrs|
        invariant entity.wallets == SetOf(addrs[..i])
        invariant walletToEntity == MapAll(old(walletToEntity), SetOf(addrs[..i]), index)
        invariant entities == old(entities) && reuseFrequency == old(reuseFrequency)
        invariant index == NextId(old(pool.Pool())) && pool.Pool() == AfterIssue(old(pool.Pool()))
      {
        assert addrs[..i + 1] == addrs[..i] + [addrs[i]];
        SetOfSnoc(addrs[..i], addrs[i]);
        MapAllInsert(old(walletToEntity), SetOf(addrs[..i]), addrs[i], index);
        entity.AddWallet(addrs[i]);
        walletToEntity := walletToEntity[addrs[i] := index];
        i := i + 1;
      }
      assert addrs[..|addrs|] == addrs;
      if index !in entities {
        entities := entities[index := entity.wallets];
      }
    }

    /** `reuseFrequency[a]++` for each output address (heuristics.cpp:14-17). */
    method RecordOutputs(tx: Transaction)
      modifies this
      ensures reuseFrequency == CountOutputs(old(reuseFrequency), OutputAddresses(tx))
      ensures Reg() == old(Reg())
    {
      var addrs := OutputAddresses(tx);
      var i := 0;
      while i < |tx.vout|
        invariant 0 <= i <= |tx.vout|
        invariant reuseFrequency == CountOutputs(old(reuseFrequency), addrs[..i])
        invariant Reg() == old(Reg())
      {
        assert addrs[..i + 1][..i] == addrs[..i];
        var a := tx.vout[i].address;
        reuseFrequency := reuseFrequency[a := Freq(reuseFrequency, a) + 1];
        i := i + 1;
      }
      assert addrs[..|tx.vout|] == addrs;
    }

    /** The input loop of `commonInputOwnershipHeuritics` (heuristics.cpp:41-48): the entity
        of each mapped input address, and every input address, in input order. */
    method CollectInputs(tx: Transaction) returns (entitiesToMerge: seq<nat>, walletAddresses: seq<Wallet>)
      ensures entitiesToMerge == MappedIds(walletToEntity, InputAddresses(tx))
      ensures walletAddresses == InputAddresses(tx)
    {
      var ins := InputAddresses(tx);
      entitiesToMerge, walletAddresses := [], [];
      var i := 0;
      while i < |tx.vin|
        invariant 0 <= i <= |tx.vin|
        invariant entitiesToMerge == MappedIds(walletToEntity, ins[..i])
        invariant walletAddresses == ins[..i]
      {
        assert ins[..i + 1][..i] == ins[..i];
        var w := tx.vin[i].address;
        if w in walletToEntity {
          entitiesToMerge := entitiesToMerge + [walletToEntity[w]];
        }
        walletAddresses := walletAddresses + [w];
        i := i + 1;
      }
      assert ins[..|ins|] == ins;
    }

    /** One round of the merge loop (heuristics.cpp:58-63): the wallets of `entities[id]`
        are appended to `walletAddresses`, the id is queued for reuse and its entity erased. */
    method AbsorbEntity(id: nat, walletAddresses: seq<Wallet>) returns (all: seq<Wallet>)
      modifies this, pool
      ensures Reg() == MergeOne(old(Reg()), {}, id).0 && reuseFrequency == old(reuseFrequency)
      ensures SetOf(all) == SetOf(walletAddresses) + MergeOne(old(Reg()), {}, id).1
      ensures |walletAddresses| <= |all| && all[..|walletAddresses|] == walletAddresses
    {
      EntitySlot(id);
      all := AppendWallets(walletAddresses, entities[id]);
      pool.PushToFreeId(id);
      entities := entities - {id};
    }

    /** The merge loop (heuristics.cpp:57-64) over `ids`, in order. */
    method MergeEntities(ids: seq<nat>, walletAddresses: seq<Wallet>) returns (all: seq<Wallet>)
      modifies this, pool
      ensures Reg() == MergeAll(old(Reg()), {}, ids).0 && reuseFrequency == old(reuseFrequency)
      ensures SetOf(all) == SetOf(walletAddresses) + MergeAll(old(Reg()), {}, ids).1
      ensures |walletAddresses| <= |all| && all[..|walletAddresses|] == walletAddresses
    {
      all := walletAddresses;
      var j := 0;
      while j < |ids|
        invariant 0 <= j <= |ids|
        invariant Reg() == MergeAll(old(Reg()), {}, ids[..j]).0
        invariant SetOf(all) == SetOf(walletAddresses) + MergeAll(old(Reg()), {}, ids[..j]).1
        invariant |walletAddresses| <= |all| && all[..|walletAddresses|] == walletAddresses
        invariant reuseFrequency == old(reuseFrequency)
      {
        assert ids[..j + 1][..j] == ids[..j];
        ghost var before := MergeAll(old(Reg()), {}, ids[..j]);
        ghost var prev := all;
        all := AbsorbEntity(ids[j], all);
        assert all[..|walletAddresses|] == prev[..|walletAddresses|];
        assert MergeAll(old(Reg()), {}, ids[..j + 1]) == MergeOne(before.0, before.1, ids[j]);
        j := j + 1;
      }
      assert ids[..|ids|] == ids;
    }

    /** The final loop of the merge branch (heuristics.cpp:66-69): every wallet joins entity
        `index` and is mapped to it. */
    method AttachAll(index: nat, walletAddresses: seq<Wallet>)
      requires |walletAddresses| > 0
      modifies this, pool
      ensures Reg() == Attach(Slot(old(Reg()), index), index, SetOf(walletAddresses))
      ensures reuseFrequency == old(reuseFrequency)
    {
      var k := 0;
      while k < |walletAddresses|
        invariant 0 <= k <= |walletAddresses|
        invariant k == 0 ==> Reg() == old(Reg())
        invariant k > 0 ==> Reg() == Attach(Slot(old(Reg()), index), index, SetOf(walletAddresses[..k]))
        invariant reuseFrequency == old(reuseFrequency)
      {
        var w := walletAddresses[k];
        assert walletAddresses[..k + 1] == walletAddresses[..k] + [w];
        SetOfSnoc(walletAddresses[..k], w);
        if k == 0 {
          AssignIsAttach(old(Reg()), index, w);
          assert SetOf(walletAddresses[..1]) == {w};
        } else {
          AttachThenAssign(Slot(old(Reg()), index), index, SetOf(walletAddresses[..k]), w);
        }
        AddToEntity(index, w);
        k := k + 1;
      }
      assert walletAddresses[..k] == walletAddresses;
    }

    /** `commonInputOwnershipHeuritics` (heuristics.cpp:37-80). */
    method CommonInputOwnershipHeuristics(tx: Transaction)
      requires WellFormed(tx)
      modifies this, pool
      ensures Reg() == CommonInput(old(Reg()), tx) && reuseFrequency == old(reuseFrequency)
    {
      var entitiesToMerge, walletAddresses := CollectInputs(tx);
      if |entitiesToMerge| != 0 {
        var sorted := SortAscending(entitiesToMerge);
        var entityIndex := sorted[0];
        walletAddresses := MergeEntities(sorted[1..], walletAddresses);
        AttachAll(entityIndex, walletAddresses);
      } else {
        NewEntity(walletAddresses);
      }
    }

    /** `changeAddressHeuristics` (heuristics.cpp:82-112), with the lock taken. The reads
        `reuseFrequency[address]` run after the outputs were counted, so they insert nothing
        and are modelled as lookups. */
    method ChangeAddressHeuristics(tx: Transaction)
      requires WellFormed(tx)
      modifies this, pool
      ensures Reg() == ChangeAddress(old(Reg()), reuseFrequency, tx) && reuseFrequency == old(reuseFrequency)
    {
      if |tx.vout| == 1 {
        var entityId := EntityIdOf(tx.vin[0].address);
        AddToEntity(entityId, tx.vout[0].address);
        return;
      }
      if |tx.vout| != 2 {
        return;
      }
      var address1, address2 := tx.vout[0].address, tx.vout[1].address;
      var f1, f2 := Freq(reuseFrequency, address1), Freq(reuseFrequency, address2);
      if (f1 != 1 && f2 < 1) || (f1 < 1 && f2 != 1) {
        return;
      }
      var inputAddress := tx.vin[0].address;
      if inputAddress == address1 || inputAddress == address2 {
        return;
      }
      var address := if f1 == 1 then address1 else address2;
      var entityId := EntityIdOf(inputAddress);
      AddToEntity(entityId, address);
    }

    /** `scriptChainMergeHeuristics` (heuristics.cpp:114-143), with the lock taken. */
    method ScriptChainMergeHeuristics(tx: Transaction)
      requires WellFormed(tx)
      modifies this, pool
      ensures Reg() == ScriptChain(old(Reg()), tx) && reuseFrequency == old(reuseFrequency)
    {
      if |tx.vin| < 2 || |tx.vout| != 2 {
        return;
      }
      var change := if tx.vout[0].value > tx.vout[1].value then tx.vout[1].address else tx.vout[0].address;
      var inMin, sum := ScanInputs(tx);
      var outMax := ScanOutputs(tx);
      if sum as int - inMin as int > outMax as int {
        return;
      }
      var entityId := EntityIdOf(tx.vin[0].address);
      AddToEntity(entityId, change);
    }

    /** `coinbaseOutput` (heuristics.cpp:145-155). */
    method CoinbaseOutput(tx: Transaction)
      modifies this, pool
      ensures Reg() == Coinbase(old(Reg()), tx) && reuseFrequency == old(reuseFrequency)
    {
      NewEntity(OutputAddresses(tx));
    }

    /** `runHeuristics` (heuristics.cpp:11-35) over a block of transactions. */
    method RunHeuristics(block: seq<Transaction>)
      requires AllWellFormed(block)
      modifies this, pool
      ensures (Reg(), reuseFrequency) == Run(old(Reg()), old(reuseFrequency), block)
    {
      var i := 0;
      while i < |block|
        invariant 0 <= i <= |block|
        invariant (Reg(), reuseFrequency) == Run(old(Reg()), old(reuseFrequency), block[..i])
      {
        assert block[..i + 1][..i] == block[..i];
        var tx := block[i];
        RecordOutputs(tx);
        i := i + 1;
        if tx.vin[0].isCoinbase {
          CoinbaseOutput(tx);
          continue;
        }
        CommonInputOwnershipHeuristics(tx);
        ChangeAddressHeuristics(tx);
        ScriptChainMergeHeuristics(tx);
      }
      assert block[..|block|] == block;
    }
  }
}
