/** Properties of one pass of the heuristics, proved on the functions of `HeuristicsSpec`. */
module HeuristicsProps {
  import opened Definition
  import opened Entities
  import opened Registry
  import opened Sorting
  import opened HeuristicsSpec

  // ---------------------------------------------------------------- reuse counts

  /** Counting a transaction's outputs adds, to every wallet's count, the number of times it
      occurs among the output addresses, and adds exactly those addresses as keys. */
  lemma {:induction false} CountOutputsAdds(freq: map<Wallet, int>, addrs: seq<Wallet>)
    ensures var f := CountOutputs(freq, addrs);
      && f.Keys == freq.Keys + SetOf(addrs)
      && forall w :: Freq(f, w) == Freq(freq, w) + multiset(addrs)[w]
    decreases |addrs|
  {
    if addrs != [] {
      var p, a := addrs[..|addrs| - 1], addrs[|addrs| - 1];
      CountOutputsAdds(freq, p);
      assert addrs == p + [a];
    }
  }

  /** All output addresses of a block, in order. */
  function BlockOutputs(block: seq<Transaction>): seq<Wallet>
    decreases |block|
  {
    if block == [] then [] else BlockOutputs(block[..|block| - 1]) + OutputAddresses(block[|block| - 1])
  }

  /** After a pass over a block, each wallet's count has grown by the number of outputs of the
      block paying it; in particular no count ever decreases. */
  lemma {:induction false} RunCountsOutputs(s: State, freq: map<Wallet, int>, block: seq<Transaction>)
    requires AllWellFormed(block)
    ensures var f := Run(s, freq, block).1;
      && f.Keys == freq.Keys + SetOf(BlockOutputs(block))
      && forall w :: Freq(f, w) == Freq(freq, w) + multiset(BlockOutputs(block))[w]
    decreases |block|
  {
    if block != [] {
      var p, tx := block[..|block| - 1], block[|block| - 1];
      RunCountsOutputs(s, freq, p);
      var r := Run(s, freq, p);
      CountOutputsAdds(r.1, OutputAddresses(tx));
    }
  }

  // ---------------------------------------------------------------- heuristic 1

  /** Dropping the last element of a sequence without repetitions leaves one without
      repetitions that does not contain that element. */
  lemma DistinctSnoc(ids: seq<nat>)
    requires ids != [] && Distinct(ids)
    ensures Distinct(ids[..|ids| - 1]) && ids[|ids| - 1] !in ids[..|ids| - 1]
  {
    var p, last := ids[..|ids| - 1], ids[|ids| - 1];
    assert ids == p + [last];
    assert multiset(ids) == multiset(p) + multiset{last};
    forall x | x in p ensures multiset(p)[x] == 1 {
      assert multiset(ids)[x] == 1;
    }
    assert multiset(ids)[last] == 1;
  }

  lemma WalletsOfSnoc(ents: map<nat, set<Wallet>>, p: seq<nat>, last: nat)
    requires last in ents
    ensures WalletsOf(ents, p + [last]) == WalletsOf(ents, p) + ents[last]
  {
    forall w | w in WalletsOf(ents, p + [last]) ensures w in WalletsOf(ents, p) + ents[last] {
      var id :| id in p + [last] && id in ents && w in ents[id];
      if id != last { assert id in p; }
    }
  }

  /** Merging a live entity removes it, frees its id and collects its wallets, and changes
      nothing else. */
  lemma MergeOneLive(s: State, c: set<Wallet>, id: nat)
    requires id in s.entities
    ensures MergeOne(s, c, id)
            == (s.(entities := s.entities - {id}, pool := Released(s.pool, id)), c + s.entities[id])
  {
  }

  /** Every id of `ids` names a live entity. */
  predicate AllLive(ents: map<nat, set<Wallet>>, ids: seq<nat>) {
    forall id | id in ids :: id in ents
  }

  /** One more round of the merge loop on a live id that the earlier rounds left in place
      erases it too. */
  lemma MergeEntitiesSnoc(s: State, c: set<Wallet>, p: seq<nat>, last: nat)
    requires last in s.entities && last !in p
    requires MergeAll(s, c, p).0.entities == s.entities - (set id | id in p)
    requires MergeAll(s, c, p).0.walletToEntity == s.walletToEntity
    ensures MergeAll(s, c, p + [last]).0.entities == s.entities - (set id | id in p + [last])
    ensures MergeAll(s, c, p + [last]).0.walletToEntity == s.walletToEntity
  {
    assert (p + [last])[..|p|] == p;
    var r := MergeAll(s, c, p);
    MergeOneLive(r.0, r.1, last);
    assert (set id | id in p + [last]) == (set id | id in p) + {last};
    assert (s.entities - (set id | id in p)) - {last} == s.entities - (set id | id in p + [last]);
  }

  /** Merging distinct live ids removes exactly those entities and leaves the wallet map
      alone. */
  lemma {:induction false} MergeAllEntities(s: State, c: set<Wallet>, ids: seq<nat>)
    requires Distinct(ids) && AllLive(s.entities, ids)
    ensures MergeAll(s, c, ids).0.entities == s.entities - (set id | id in ids)
    ensures MergeAll(s, c, ids).0.walletToEntity == s.walletToEntity
    decreases |ids|
  {
    if ids != [] {
      var p, last := ids[..|ids| - 1], ids[|ids| - 1];
      assert ids == p + [last];
      DistinctSnoc(ids);
      MergeAllEntities(s, c, p);
      MergeEntitiesSnoc(s, c, p, last);
    }
  }

  /** One more round on a live id that the earlier rounds left in place queues it and collects
      its wallets. */
  lemma MergeReleasesSnoc(s: State, c: set<Wallet>, p: seq<nat>, last: nat)
    requires last in s.entities && last !in p
    requires MergeAll(s, c, p).0.entities == s.entities - (set id | id in p)
    requires MergeAll(s, c, p).0.pool == IdPool(s.pool.counter, s.pool.freeQ + p)
    requires MergeAll(s, c, p).1 == c + WalletsOf(s.entities, p)
    ensures MergeAll(s, c, p + [last]).0.pool == IdPool(s.pool.counter, s.pool.freeQ + (p + [last]))
    ensures MergeAll(s, c, p + [last]).1 == c + WalletsOf(s.entities, p + [last])
  {
    assert (p + [last])[..|p|] == p;
    var r := MergeAll(s, c, p);
    MergeOneLive(r.0, r.1, last);
    assert s.pool.freeQ + p + [last] == s.pool.freeQ + (p + [last]);
    WalletsOfSnoc(s.entities, p, last);
  }

  /** Merging distinct live ids frees them in order and collects their wallets. */
  lemma {:induction false} MergeAllReleases(s: State, c: set<Wallet>, ids: seq<nat>)
    requires Distinct(ids) && AllLive(s.entities, ids)
    ensures MergeAll(s, c, ids).0.pool == IdPool(s.pool.counter, s.pool.freeQ + ids)
    ensures MergeAll(s, c, ids).1 == c + WalletsOf(s.entities, ids)
    decreases |ids|
  {
    if ids != [] {
      var p, last := ids[..|ids| - 1], ids[|ids| - 1];
      assert ids == p + [last];
      DistinctSnoc(ids);
      MergeAllReleases(s, c, p);
      MergeAllEntities(s, c, p);
      MergeReleasesSnoc(s, c, p, last);
    }
  }

  /** The merge loop over distinct live ids erases exactly those ids, queues them in order,
      collects exactly their wallets, consumes no id and leaves the wallet index alone. */
  lemma MergeAllDistinct(s: State, c: set<Wallet>, ids: seq<nat>)
    requires Distinct(ids) && AllLive(s.entities, ids)
    ensures var r := MergeAll(s, c, ids);
      && r.0.entities == s.entities - (set id | id in ids)
      && r.0.walletToEntity == s.walletToEntity
      && r.0.pool == IdPool(s.pool.counter, s.pool.freeQ + ids)
      && r.1 == c + WalletsOf(s.entities, ids)
  {
    MergeAllEntities(s, c, ids);
    MergeAllReleases(s, c, ids);
  }

  /** Sorting keeps the ids distinct, and the sorted ids after the first are the ids other
      than the minimum, in ascending order. */
  lemma SortedDistinct(m: seq<nat>)
    requires m != [] && Distinct(m)
    ensures var sorted := SortAscending(m);
      && Distinct(sorted) && Distinct(sorted[1..])
      && Ascending(sorted[1..])
      && sorted[0] in m && (forall id | id in m :: sorted[0] <= id)
      && (forall id :: id in sorted[1..] <==> id in m && id != sorted[0])
  {
    var sorted := SortAscending(m);
    SortedHeadIsMinimum(m);
    assert sorted == [sorted[0]] + sorted[1..];
    assert multiset(sorted) == multiset{sorted[0]} + multiset(sorted[1..]);
    forall x | x in sorted ensures multiset(sorted)[x] == 1 {
      assert x in multiset(sorted);
      assert x in multiset(m);
    }
    forall x | x in sorted[1..] ensures multiset(sorted[1..])[x] == 1 {
      assert x in sorted;
    }
    forall id ensures id in sorted[1..] <==> id in m && id != sorted[0] {
      assert id in m <==> id in multiset(sorted);
    }
  }

  /** The state the merge branch leaves: the absorbed entities erased and queued, the survivor
      holding its wallets plus `ins` and the absorbed entities' wallets, all of them mapped to it. */
  function Absorb(s: State, survivor: nat, absorbed: seq<nat>, ins: set<Wallet>): State
    requires survivor in s.entities
  {
    var moved := ins + WalletsOf(s.entities, absorbed);
    State((s.entities - (set id | id in absorbed))[survivor := s.entities[survivor] + moved],
          MapAll(s.walletToEntity, moved, survivor),
          IdPool(s.pool.counter, s.pool.freeQ + absorbed))
  }

  /** On a consistent state every id an input address maps to is live. */
  lemma MappedLive(s: State, addrs: seq<Wallet>)
    requires Consistent(s)
    ensures AllLive(s.entities, MappedIds(s.walletToEntity, addrs))
  {
    forall id | id in MappedIds(s.walletToEntity, addrs) ensures id in s.entities {
      var a :| a in addrs && a in s.walletToEntity && s.walletToEntity[a] == id;
    }
  }

  /** The merge loop then the survivor's attachment, on distinct live ids, is `Absorb`. */
  lemma AbsorbIsMerge(s: State, survivor: nat, absorbed: seq<nat>, ins: set<Wallet>)
    requires survivor in s.entities && survivor !in absorbed
    requires Distinct(absorbed) && AllLive(s.entities, absorbed)
    ensures var r := MergeAll(s, {}, absorbed);
      Attach(Slot(r.0, survivor), survivor, ins + r.1) == Absorb(s, survivor, absorbed, ins)
  {
    MergeAllDistinct(s, {}, absorbed);
    var r := MergeAll(s, {}, absorbed);
    assert survivor in r.0.entities && r.0.entities[survivor] == s.entities[survivor];
    assert Slot(r.0, survivor) == r.0;
    assert ins + r.1 == ins + WalletsOf(s.entities, absorbed);
  }

  /** The merge branch of common-input ownership on distinct ids, in closed form. */
  lemma MergeBranchState(s: State, tx: Transaction)
    requires WellFormed(tx) && Consistent(s)
    requires MappedIds(s.walletToEntity, InputAddresses(tx)) != []
    requires Distinct(MappedIds(s.walletToEntity, InputAddresses(tx)))
    ensures var sorted := SortAscending(MappedIds(s.walletToEntity, InputAddresses(tx)));
      && sorted[0] in s.entities && sorted[0] !in sorted[1..]
      && Distinct(sorted[1..]) && AllLive(s.entities, sorted[1..])
      && CommonInput(s, tx) == Absorb(s, sorted[0], sorted[1..], SetOf(InputAddresses(tx)))
  {
    var m := MappedIds(s.walletToEntity, InputAddresses(tx));
    var sorted := SortAscending(m);
    SortedDistinct(m);
    MappedLive(s, InputAddresses(tx));
    assert sorted[0] in s.entities && sorted[0] !in sorted[1..];
    assert AllLive(s.entities, sorted[1..]);
    AbsorbIsMerge(s, sorted[0], sorted[1..], SetOf(InputAddresses(tx)));
  }

  /** What `Absorb` does, field by field. */
  lemma AbsorbFields(s: State, survivor: nat, absorbed: seq<nat>, ins: set<Wallet>)
    requires survivor in s.entities && survivor !in absorbed
    ensures var moved := ins + WalletsOf(s.entities, absorbed);
      var t := Absorb(s, survivor, absorbed, ins);
      && t.entities.Keys == s.entities.Keys - (set id | id in absorbed)
      && t.entities[survivor] == s.entities[survivor] + moved
      && (forall id | id in s.entities && id !in absorbed && id != survivor :: t.entities[id] == s.entities[id])
      && t.walletToEntity.Keys == s.walletToEntity.Keys + moved
      && (forall w | w in moved :: t.walletToEntity[w] == survivor)
      && (forall w | w in s.walletToEntity && w !in moved :: t.walletToEntity[w] == s.walletToEntity[w])
      && t.pool == IdPool(s.pool.counter, s.pool.freeQ + absorbed)
  {
  }

  /** Common-input ownership when the inputs map to pairwise distinct entities: the smallest id
      survives; the others are erased and queued for reuse in ascending order; the survivor
      receives every input address and every wallet of the absorbed entities, and all of them
      now map to it; every entity the inputs do not reference is unchanged; no id is consumed. */
  lemma CommonInputMerges(s: State, tx: Transaction)
    requires WellFormed(tx) && Consistent(s)
    requires MappedIds(s.walletToEntity, InputAddresses(tx)) != []
    requires Distinct(MappedIds(s.walletToEntity, InputAddresses(tx)))
    ensures var m := MappedIds(s.walletToEntity, InputAddresses(tx));
      var sorted := SortAscending(m);
      var survivor, absorbed := sorted[0], sorted[1..];
      var moved := SetOf(InputAddresses(tx)) + WalletsOf(s.entities, absorbed);
      var t := CommonInput(s, tx);
      && survivor in m && (forall id | id in m :: survivor <= id)
      && Ascending(absorbed) && (forall id :: id in absorbed <==> id in m && id != survivor)
      && t.entities.Keys == s.entities.Keys - (set id | id in absorbed)
      && t.entities[survivor] == s.entities[survivor] + moved
      && (forall id | id in s.entities && id !in m :: t.entities[id] == s.entities[id])
      && t.walletToEntity.Keys == s.walletToEntity.Keys + moved
      && (forall w | w in moved :: t.walletToEntity[w] == survivor)
      && (forall w | w in s.walletToEntity && w !in moved :: t.walletToEntity[w] == s.walletToEntity[w])
      && t.pool == IdPool(s.pool.counter, s.pool.freeQ + absorbed)
  {
    var m := MappedIds(s.walletToEntity, InputAddresses(tx));
    var sorted := SortAscending(m);
    SortedDistinct(m);
    MergeBranchState(s, tx);
    AbsorbFields(s, sorted[0], sorted[1..], SetOf(InputAddresses(tx)));
  }

  /** Common-input ownership when no input address is mapped: one fresh entity holding exactly
      the input addresses, each mapped to it; nothing else changes but the allocator. */
  lemma CommonInputCreates(s: State, tx: Transaction)
    requires WellFormed(tx) && Consistent(s)
    requires MappedIds(s.walletToEntity, InputAddresses(tx)) == []
    ensures var id := NextId(s.pool); var ins := SetOf(InputAddresses(tx)); var t := CommonInput(s, tx);
      && id !in s.entities
      && t.entities == s.entities[id := ins]
      && (forall w | w in ins :: w in t.walletToEntity && t.walletToEntity[w] == id)
      && (forall w | w in s.walletToEntity && w !in ins :: t.walletToEntity[w] == s.walletToEntity[w])
      && t.pool == AfterIssue(s.pool)
  {
    CreateEntityFresh(s, SetOf(InputAddresses(tx)));
  }

  /** Absorbing distinct live entities into a live survivor, as the merge branch does, keeps
      the invariant. */
  lemma AbsorbKeepsConsistent(s: State, survivor: nat, absorbed: seq<nat>, ins: set<Wallet>)
    requires Consistent(s) && survivor in s.entities && survivor !in absorbed
    requires Distinct(absorbed) && AllLive(s.entities, absorbed)
    ensures Consistent(Absorb(s, survivor, absorbed, ins))
    ensures ins <= Absorb(s, survivor, absorbed, ins).walletToEntity.Keys
  {
    var moved := ins + WalletsOf(s.entities, absorbed);
    var t := Absorb(s, survivor, absorbed, ins);
    var ents, w2e, q := t.entities, t.walletToEntity, t.pool.freeQ;
    forall w | w in w2e ensures w2e[w] in ents && w in ents[w2e[w]] {
      if w !in moved {
        var e := s.walletToEntity[w];
        assert e in absorbed ==> w in WalletsOf(s.entities, absorbed);
      }
    }
    assert multiset(q) == multiset(s.pool.freeQ) + multiset(absorbed);
    forall x | x in q ensures multiset(q)[x] == 1 {
      if x in s.pool.freeQ {
        assert x !in s.entities;
        assert x !in multiset(absorbed);
      } else {
        assert x in absorbed;
        assert x !in multiset(s.pool.freeQ);
      }
    }
  }

  /** The merge branch on distinct ids keeps the invariant. */
  lemma MergeBranchKeepsConsistent(s: State, tx: Transaction)
    requires WellFormed(tx) && Consistent(s)
    requires MappedIds(s.walletToEntity, InputAddresses(tx)) != []
    requires Distinct(MappedIds(s.walletToEntity, InputAddresses(tx)))
    ensures Consistent(CommonInput(s, tx))
    ensures SetOf(InputAddresses(tx)) <= CommonInput(s, tx).walletToEntity.Keys
  {
    var sorted := SortAscending(MappedIds(s.walletToEntity, InputAddresses(tx)));
    MergeBranchState(s, tx);
    AbsorbKeepsConsistent(s, sorted[0], sorted[1..], SetOf(InputAddresses(tx)));
  }

  /** After common-input ownership every input address maps to an existing entity that
      contains it, whether or not the merge meets an id twice: both branches attach the input
      addresses to an entity they leave live. */
  lemma CommonInputMapsInputs(s: State, tx: Transaction)
    requires WellFormed(tx) && Consistent(s)
    ensures var t := CommonInput(s, tx);
      forall a | a in InputAddresses(tx) ::
        a in t.walletToEntity && t.walletToEntity[a] in t.entities && a in t.entities[t.walletToEntity[a]]
  {
    if MappedIds(s.walletToEntity, InputAddresses(tx)) == [] {
      FreshIdIsFree(s);
    }
  }

  /** After common-input ownership on clean inputs the invariant holds again, and every input
      address maps to an existing entity that contains it. */
  lemma CommonInputKeepsConsistent(s: State, tx: Transaction)
    requires WellFormed(tx) && Consistent(s)
    requires Distinct(MappedIds(s.walletToEntity, InputAddresses(tx)))
    ensures var t := CommonInput(s, tx);
      && Consistent(t)
      && forall a | a in InputAddresses(tx) ::
           a in t.walletToEntity && t.walletToEntity[a] in t.entities && a in t.entities[t.walletToEntity[a]]
  {
    CommonInputMapsInputs(s, tx);
    if MappedIds(s.walletToEntity, InputAddresses(tx)) == [] {
      CreateEntityFresh(s, SetOf(InputAddresses(tx)));
    } else {
      MergeBranchKeepsConsistent(s, tx);
    }
  }

  /** The state and transaction of the repeated-id scenario: entity 3 holds "a", id 2 waits
      in the queue, and a transaction spends twice from "a". */
  function RepeatState(): State {
    State(map[3 := {"a"}], map["a" := 3], IdPool(4, [2]))
  }

  function RepeatTx(): Transaction {
    Transaction([TxInput("a", false, 1), TxInput("a", false, 1)], [TxOutput("b", 1)])
  }

  lemma RepeatIds()
    ensures InputAddresses(RepeatTx()) == ["a", "a"]
    ensures MappedIds(RepeatState().walletToEntity, InputAddresses(RepeatTx())) == [3, 3]
    ensures SortAscending([3, 3]) == [3, 3]
  {
    var ins := InputAddresses(RepeatTx());
    assert ins == ["a", "a"];
    assert ins[..1] == ["a"] && ins[..1][..0] == [];
    assert MappedIds(RepeatState().walletToEntity, ins[..1]) == [3];
    assert [3, 3][1..] == [3];
    assert SortAscending([3]) == [3];
  }

  /** The merge branch of common-input ownership, given the sorted ids and the merge loop's
      result. */
  lemma MergeBranchUnfold(s: State, tx: Transaction, sorted: seq<nat>, r: (State, set<Wallet>))
    requires WellFormed(tx) && MappedIds(s.walletToEntity, InputAddresses(tx)) != []
    requires sorted == SortAscending(MappedIds(s.walletToEntity, InputAddresses(tx)))
    requires r == MergeAll(s, {}, sorted[1..])
    ensures CommonInput(s, tx) == Attach(Slot(r.0, sorted[0]), sorted[0], SetOf(InputAddresses(tx)) + r.1)
  {
  }

  /** The merge loop over a repeated smallest id `x` with a non-empty queue: the single round
      erases `x` and queues it; `entities[x]` then default-constructs the survivor again, which
      pops the queue's front, and the inputs and absorbed wallets are attached to it. */
  lemma RepeatedSmallestSurvivor(s: State, x: nat, ins: set<Wallet>)
    requires x in s.entities && s.pool.freeQ != []
    ensures var r := MergeAll(s, {}, [x]);
      var t := Attach(Slot(r.0, x), x, ins + r.1);
      && t.entities == s.entities[x := ins + s.entities[x]]
      && t.pool == IdPool(s.pool.counter, s.pool.freeQ[1..] + [x])
  {
    assert [x][..0] == [];
    var none: set<Wallet> := {};
    assert MergeAll(s, none, []) == (s, none);
    MergeOneLive(s, none, x);
    var r := MergeAll(s, none, [x]);
    assert r == MergeOne(s, none, x);
    var q := s.pool.freeQ;
    assert r.0.pool == IdPool(s.pool.counter, q + [x]);
    assert forall k | 0 <= k < |q| :: (q + [x])[1..][k] == (q[1..] + [x])[k];
    assert (q + [x])[1..] == q[1..] + [x];
    assert AfterIssue(r.0.pool) == IdPool(s.pool.counter, q[1..] + [x]);
    assert r.1 == s.entities[x];
    var s1 := Slot(r.0, x);
    assert s1.entities == (s.entities - {x})[x := {}];
    assert s1.pool == IdPool(s.pool.counter, q[1..] + [x]);
    ReinsertedEntity(s.entities, x, ins);
  }

  /** Erasing an entity, default-constructing it again and attaching wallets to it leaves it
      with its old wallets plus the attached ones. */
  lemma ReinsertedEntity(m: map<nat, set<Wallet>>, x: nat, ins: set<Wallet>)
    requires x in m
    ensures var e: set<Wallet> := {};
      var m1 := (m - {x})[x := e];
      m1[x := m1[x] + (ins + m[x])] == m[x := ins + m[x]]
  {
    var e: set<Wallet> := {};
    var m1 := (m - {x})[x := e];
    assert m1[x] + (ins + m[x]) == ins + m[x];
  }

  /** An id that is both live and queued breaks the invariant. */
  lemma LiveAndQueuedInconsistent(t: State, p: seq<nat>, x: nat)
    requires t.pool.freeQ == p + [x] && x in t.entities
    ensures !Consistent(t)
  {
    assert x in t.pool.freeQ;
  }

  /** Repeated smallest merge id: when the sorted ids are `[x, x]` and the free queue is not
      empty, the survivor `x` is re-created on the queue front's turn, so `x` ends both live and
      queued, with every input attached to it. */
  lemma RepeatedIdLiveAndQueued(s: State, tx: Transaction, x: nat)
    requires WellFormed(tx) && Consistent(s) && s.pool.freeQ != []
    requires SortAscending(MappedIds(s.walletToEntity, InputAddresses(tx))) == [x, x]
    ensures x in s.entities
    ensures var t := CommonInput(s, tx);
      && t.entities == s.entities[x := SetOf(InputAddresses(tx)) + s.entities[x]]
      && t.pool == IdPool(s.pool.counter, s.pool.freeQ[1..] + [x])
      && !Consistent(t)
  {
    var m := MappedIds(s.walletToEntity, InputAddresses(tx));
    var sorted := SortAscending(m);
    assert x in multiset(sorted);
    MappedLive(s, InputAddresses(tx));
    assert sorted[1..] == [x];
    RepeatedSmallestSurvivor(s, x, SetOf(InputAddresses(tx)));
    MergeBranchUnfold(s, tx, sorted, MergeAll(s, {}, [x]));
    LiveAndQueuedInconsistent(CommonInput(s, tx), s.pool.freeQ[1..], x);
  }

  /** With one id queued beforehand, the repeated id is the next one handed out: a following
      coinbase's `insert` on the live id is ignored, and an output wallet the entity does not
      hold is mapped to it. */
  lemma RepeatedIdLeavesLiveIdQueued(s: State, tx: Transaction, x: nat, coinbase: Transaction, w: Wallet)
    requires WellFormed(tx) && Consistent(s) && |s.pool.freeQ| == 1
    requires SortAscending(MappedIds(s.walletToEntity, InputAddresses(tx))) == [x, x]
    requires w in OutputAddresses(coinbase) && w !in InputAddresses(tx)
    requires x in s.entities && w !in s.entities[x]
    ensures var t := CommonInput(s, tx);
      && NextId(t.pool) == x && x in t.entities
      && !Consistent(Coinbase(t, coinbase))
  {
    RepeatedIdLiveAndQueued(s, tx, x);
    var t := CommonInput(s, tx);
    assert s.pool.freeQ[1..] == [];
    assert t.pool.freeQ == [x];
    CreateEntityOnLiveId(t, SetOf(OutputAddresses(coinbase)), w);
  }

  lemma RepeatConsistent()
    ensures Consistent(RepeatState())
  {
    assert Distinct([2]) by { assert multiset([2])[2] == 1; }
  }

  lemma RepeatFresh()
    ensures 3 in RepeatState().entities && "m" !in RepeatState().entities[3] && "m" !in InputAddresses(RepeatTx())
  {
    var ins := InputAddresses(RepeatTx());
    assert ins == ["a", "a"];
    assert RepeatState().entities[3] == {"a"};
  }

  lemma RepeatCoinbase()
    ensures "m" in OutputAddresses(Transaction([TxInput("", true, 0)], [TxOutput("m", 50)]))
  {
    assert OutputAddresses(Transaction([TxInput("", true, 0)], [TxOutput("m", 50)]))[0] == "m";
  }

  /** The premises of `RepeatedIdLeavesLiveIdQueued` can be met: entity 3 holds "a", id 2
      waits in the queue, a transaction spends twice from "a", and a coinbase pays "m". */
  lemma RepeatWitness()
    ensures WellFormed(RepeatTx()) && Consistent(RepeatState()) && |RepeatState().pool.freeQ| == 1
    ensures SortAscending(MappedIds(RepeatState().walletToEntity, InputAddresses(RepeatTx()))) == [3, 3]
    ensures 3 in RepeatState().entities && "m" !in RepeatState().entities[3] && "m" !in InputAddresses(RepeatTx())
    ensures "m" in OutputAddresses(Transaction([TxInput("", true, 0)], [TxOutput("m", 50)]))
  {
    RepeatIds();
    RepeatConsistent();
    RepeatFresh();
    RepeatCoinbase();
  }

  /** A second repeated-id scenario: entities 3 and 5 hold "a" and "c", id 2 waits in the
      queue, and a transaction spends from "a" and twice from "c", so id 5, not the smallest,
      is repeated. */
  function RepeatLargerState(): State {
    State(map[3 := {"a"}, 5 := {"c"}], map["a" := 3, "c" := 5], IdPool(6, [2]))
  }

  function RepeatLargerTx(): Transaction {
    Transaction([TxInput("a", false, 1), TxInput("c", false, 1), TxInput("c", false, 1)], [TxOutput("b", 1)])
  }

  lemma RepeatLargerIds()
    ensures InputAddresses(RepeatLargerTx()) == ["a", "c", "c"]
    ensures MappedIds(RepeatLargerState().walletToEntity, InputAddresses(RepeatLargerTx())) == [3, 5, 5]
    ensures SetOf(InputAddresses(RepeatLargerTx())) == {"a", "c"}
  {
    var w2e := RepeatLargerState().walletToEntity;
    var ins := InputAddresses(RepeatLargerTx());
    assert ins == ["a", "c", "c"];
    assert ins[..2] == ["a", "c"] && ins[..2][..1] == ["a"] && ins[..2][..1][..0] == [];
    assert MappedIds(w2e, ins[..2][..1]) == [3];
    assert MappedIds(w2e, ins[..2]) == [3, 5];
  }

  lemma RepeatLargerSort()
    ensures SortAscending([3, 5, 5]) == [3, 5, 5]
  {
    var ids: seq<nat> := [3, 5, 5];
    assert Ascending(ids);
    SortAscendingFixes(ids);
  }

  /** The merge loop over a repeated live id: the first round erases the entity and queues
      the id; the second default-constructs `entities[y]` again, which pops the queue's front,
      erases it once more and queues `y` a second time. */
  lemma MergeRepeatedId(s: State, y: nat)
    requires y in s.entities && s.pool.freeQ != []
    ensures var r := MergeAll(s, {}, [y, y]).0;
      && r.entities == s.entities - {y}
      && r.pool == IdPool(s.pool.counter, s.pool.freeQ[1..] + [y, y])
  {
    assert [y, y][..1] == [y] && [y][..0] == [];
    MergeOneLive(s, {}, y);
    var s1 := MergeOne(s, {}, y).0;
    assert MergeAll(s, {}, [y]).0 == s1;
    assert s1.pool.freeQ == s.pool.freeQ + [y];
    assert AfterIssue(s1.pool) == IdPool(s.pool.counter, s.pool.freeQ[1..] + [y]);
  }

  /** A survivor `x` beside a repeated id `y`: the merge loop leaves `x` live, so fetching
      it draws no id, and attaching the inputs keeps the pool the loop left. */
  lemma MergeRepeatedSurvivor(s: State, x: nat, y: nat, ins: set<Wallet>)
    requires x in s.entities && y in s.entities && x != y && s.pool.freeQ != []
    ensures var r := MergeAll(s, {}, [y, y]);
      var t := Attach(Slot(r.0, x), x, ins + r.1);
      && x in t.entities && y !in t.entities
      && t.pool == IdPool(s.pool.counter, s.pool.freeQ[1..] + [y, y])
  {
    MergeRepeatedId(s, y);
  }

  /** A queue holding some id twice breaks the invariant. */
  lemma QueuedTwiceInconsistent(t: State, p: seq<nat>, y: nat)
    requires t.pool.freeQ == p + [y, y]
    ensures !Consistent(t)
  {
    var q: seq<nat> := t.pool.freeQ;
    assert q == p + [y] + [y];
    assert y in q && multiset(q)[y] >= 2;
  }

  /** A repeated id other than the smallest: when the sorted ids are `[x, y, y]` and the free
      queue is not empty, survivor `x` is never erased and nothing ends both live and queued,
      but `y` is queued twice, so the invariant fails. */
  lemma RepeatedLargerIdQueuedTwice(s: State, tx: Transaction, x: nat, y: nat)
    requires WellFormed(tx) && Consistent(s) && s.pool.freeQ != [] && x != y
    requires SortAscending(MappedIds(s.walletToEntity, InputAddresses(tx))) == [x, y, y]
    ensures var t := CommonInput(s, tx);
      && x in t.entities && y !in t.entities
      && t.pool == IdPool(s.pool.counter, s.pool.freeQ[1..] + [y, y])
      && !Consistent(t)
  {
    var m := MappedIds(s.walletToEntity, InputAddresses(tx));
    var sorted := SortAscending(m);
    assert x in multiset(sorted) && y in multiset(sorted);
    MappedLive(s, InputAddresses(tx));
    assert sorted[1..] == [y, y];
    MergeRepeatedSurvivor(s, x, y, SetOf(InputAddresses(tx)));
    MergeBranchUnfold(s, tx, sorted, MergeAll(s, {}, [y, y]));
    var t := CommonInput(s, tx);
    QueuedTwiceInconsistent(t, s.pool.freeQ[1..], y);
  }

  /** The merge loop over `[y, z, z]` from an empty queue: rounds one and two erase `y` and
      `z` and queue them; round three re-creates `z` from the queue's front, which is `y`, not
      `z`, erases it again and queues `z` a second time. */
  lemma EmptyQueueMerge(s: State, y: nat, z: nat)
    requires y in s.entities && z in s.entities && y != z && s.pool.freeQ == []
    ensures var r := MergeAll(s, {}, [y, z, z]).0;
      && r.entities == s.entities - {y, z}
      && r.pool == IdPool(s.pool.counter, [z, z])
  {
    assert [y, z, z][..2] == [y, z] && [y, z][..1] == [y] && [y][..0] == [];
    MergeOneLive(s, {}, y);
    var r1 := MergeOne(s, {}, y);
    assert MergeAll(s, {}, [y]) == r1;
    assert r1.0.pool.freeQ == [y];
    MergeOneLive(r1.0, r1.1, z);
    var r2 := MergeOne(r1.0, r1.1, z);
    assert MergeAll(s, {}, [y, z]) == r2;
    assert r2.0.entities == s.entities - {y, z};
    assert r2.0.pool == IdPool(s.pool.counter, [y, z]);
    assert AfterIssue(r2.0.pool) == IdPool(s.pool.counter, [z]);
  }

  /** A queue of just one id twice breaks the invariant. */
  lemma QueuedPairInconsistent(t: State, z: nat)
    requires t.pool.freeQ == [z, z]
    ensures !Consistent(t)
  {
    QueuedTwiceInconsistent(t, [], z);
  }

  /** A survivor `x` beside merged ids `y` and `z`: the loop leaves `x` live, so fetching it
      draws no id, and attaching the inputs keeps the pool the loop left. */
  lemma EmptyQueueSurvivor(s: State, x: nat, y: nat, z: nat, ins: set<Wallet>)
    requires x in s.entities && y in s.entities && z in s.entities
    requires x != y && x != z && y != z && s.pool.freeQ == []
    ensures var r := MergeAll(s, {}, [y, z, z]);
      var t := Attach(Slot(r.0, x), x, ins + r.1);
      && x in t.entities && y !in t.entities && z !in t.entities
      && t.pool == IdPool(s.pool.counter, [z, z])
  {
    EmptyQueueMerge(s, y, z);
  }

  /** An empty free queue does not protect the invariant: when the sorted ids are
      `[x, y, z, z]`, the earlier round's `y` is at the queue's front when `z` is re-created,
      so `z` is queued twice. */
  lemma EmptyQueueBreaks(s: State, tx: Transaction, x: nat, y: nat, z: nat)
    requires WellFormed(tx) && Consistent(s) && s.pool.freeQ == []
    requires x != y && x != z && y != z
    requires SortAscending(MappedIds(s.walletToEntity, InputAddresses(tx))) == [x, y, z, z]
    ensures var t := CommonInput(s, tx);
      && x in t.entities && y !in t.entities && z !in t.entities
      && t.pool == IdPool(s.pool.counter, [z, z])
      && !Consistent(t)
  {
    var m := MappedIds(s.walletToEntity, InputAddresses(tx));
    var sorted := SortAscending(m);
    assert x in multiset(sorted) && y in multiset(sorted) && z in multiset(sorted);
    MappedLive(s, InputAddresses(tx));
    assert sorted[1..] == [y, z, z];
    EmptyQueueSurvivor(s, x, y, z, SetOf(InputAddresses(tx)));
    MergeBranchUnfold(s, tx, sorted, MergeAll(s, {}, [y, z, z]));
    QueuedPairInconsistent(CommonInput(s, tx), z);
  }

  lemma RepeatLargerConsistent()
    ensures Consistent(RepeatLargerState())
  {
    var s := RepeatLargerState();
    assert forall w | w in s.walletToEntity :: w == "a" || w == "c";
    assert Distinct([2]) by { assert multiset([2])[2] == 1; }
  }

  /** The premises of `RepeatedLargerIdQueuedTwice` can be met: entities 3 and 5 hold "a" and
      "c", id 2 waits in the queue, and a transaction spends from "a" and twice from "c". */
  lemma RepeatLargerWitness()
    ensures WellFormed(RepeatLargerTx()) && Consistent(RepeatLargerState())
    ensures RepeatLargerState().pool.freeQ != []
    ensures SortAscending(MappedIds(RepeatLargerState().walletToEntity, InputAddresses(RepeatLargerTx()))) == [3, 5, 5]
  {
    RepeatLargerIds();
    RepeatLargerSort();
    RepeatLargerConsistent();
  }

  /** An empty-queue scenario: entities 3, 4 and 5 hold "a", "b" and "c", no id is queued,
      and a transaction spends from "a", "b" and twice from "c". */
  function EmptyQueueState(): State {
    State(map[3 := {"a"}, 4 := {"b"}, 5 := {"c"}], map["a" := 3, "b" := 4, "c" := 5], IdPool(6, []))
  }

  function EmptyQueueTx(): Transaction {
    Transaction([TxInput("a", false, 1), TxInput("b", false, 1), TxInput("c", false, 1), TxInput("c", false, 1)],
                [TxOutput("d", 1)])
  }

  lemma EmptyQueueIds()
    ensures MappedIds(EmptyQueueState().walletToEntity, InputAddresses(EmptyQueueTx())) == [3, 4, 5, 5]
  {
    var w2e := EmptyQueueState().walletToEntity;
    var ins := InputAddresses(EmptyQueueTx());
    assert ins == ["a", "b", "c", "c"];
    assert ins[..3] == ["a", "b", "c"] && ins[..3][..2] == ["a", "b"];
    assert ins[..3][..2][..1] == ["a"] && ins[..3][..2][..1][..0] == [];
    assert MappedIds(w2e, ins[..3][..2][..1]) == [3];
    assert MappedIds(w2e, ins[..3][..2]) == [3, 4];
    assert MappedIds(w2e, ins[..3]) == [3, 4, 5];
  }

  lemma EmptyQueueConsistent()
    ensures Consistent(EmptyQueueState())
  {
    var s := EmptyQueueState();
    assert forall w | w in s.walletToEntity :: w == "a" || w == "b" || w == "c";
  }

  /** The premises of `EmptyQueueBreaks` can be met, with ids 3, 4 and 5. */
  lemma EmptyQueueWitness()
    ensures WellFormed(EmptyQueueTx()) && Consistent(EmptyQueueState())
    ensures EmptyQueueState().pool.freeQ == []
    ensures SortAscending(MappedIds(EmptyQueueState().walletToEntity, InputAddresses(EmptyQueueTx()))) == [3, 4, 5, 5]
  {
    EmptyQueueIds();
    var ids: seq<nat> := [3, 4, 5, 5];
    assert Ascending(ids);
    SortAscendingFixes(ids);
    EmptyQueueConsistent();
  }

  // ---------------------------------------------------------------- heuristics 2 and 3

  /** Once outputs are counted (and counts start non-negative), both outputs of a two-output
      transaction count at least 1, so the reuse test at heuristics.cpp:99 never returns early:
      the rule skips only when the first input pays one of the outputs, and otherwise picks
      the first output if it was seen exactly once, else the second. */
  lemma ChangeRuleAfterCounting(freq: map<Wallet, int>, tx: Transaction)
    requires WellFormed(tx) && |tx.vout| == 2
    requires forall w | w in freq :: freq[w] >= 0
    ensures var f := CountOutputs(freq, OutputAddresses(tx));
      var a1, a2 := tx.vout[0].address, tx.vout[1].address;
      && Freq(f, a1) >= 1 && Freq(f, a2) >= 1
      && ChangeAddressTarget(f, tx) ==
           if tx.vin[0].address == a1 || tx.vin[0].address == a2 then None
           else Some(if Freq(f, a1) == 1 then a1 else a2)
  {
    var outs := OutputAddresses(tx);
    CountOutputsAdds(freq, outs);
    assert outs[0] in multiset(outs) && outs[1] in multiset(outs);
  }

  /** The change-address rule for the other output counts (heuristics.cpp:85-94): a single
      output joins the first input's entity whatever the counts, and with no output or more
      than two the rule changes nothing. */
  lemma ChangeRuleOtherCounts(s: State, freq: map<Wallet, int>, tx: Transaction)
    requires WellFormed(tx)
    ensures |tx.vout| == 1 ==> ChangeAddressTarget(freq, tx) == Some(tx.vout[0].address)
    ensures |tx.vout| == 1 && Consistent(s) && tx.vin[0].address in s.walletToEntity ==>
      var id := s.walletToEntity[tx.vin[0].address]; var w := tx.vout[0].address;
      var t := ChangeAddress(s, freq, tx);
      && t.entities == s.entities[id := s.entities[id] + {w}]
      && t.walletToEntity == s.walletToEntity[w := id]
      && t.pool == s.pool
    ensures |tx.vout| != 1 && |tx.vout| != 2 ==> ChangeAddress(s, freq, tx) == s
  {
    if |tx.vout| == 1 && Consistent(s) && tx.vin[0].address in s.walletToEntity {
      ApplyTargetAttaches(s, tx, tx.vout[0].address);
    }
  }

  /** Attaching a wallet to the first input's entity (both rules' only write): that entity
      gains the wallet, the wallet maps to it, nothing else changes, the invariant is kept. */
  lemma ApplyTargetAttaches(s: State, tx: Transaction, w: Wallet)
    requires WellFormed(tx) && Consistent(s) && tx.vin[0].address in s.walletToEntity
    ensures var id := s.walletToEntity[tx.vin[0].address]; var t := ApplyTarget(s, tx, Some(w));
      && t.entities == s.entities[id := s.entities[id] + {w}]
      && t.walletToEntity == s.walletToEntity[w := id]
      && t.pool == s.pool
      && Consistent(t)
  {
    AssignKeepsConsistent(s, tx.vin[0].address, w);
  }

  /** The script-chain rule fires only with at least two inputs and exactly two outputs, and
      then exactly when the source's narrow sum minus the smallest input is at most the larger
      output; the wallet it attaches is the smaller output, `vout[0]` on a tie. */
  lemma ScriptChainDecision(tx: Transaction)
    ensures ScriptChainTarget(tx).Some? ==> |tx.vin| >= 2 && |tx.vout| == 2
    ensures |tx.vin| >= 2 && |tx.vout| == 2 ==>
      var ins, outs := InputValues(tx), OutputValues(tx);
      && MinValue(ins) <= NarrowSum(ins) <= Sum(ins)
      && (ScriptChainTarget(tx).Some? <==> NarrowSum(ins) - MinValue(ins) <= MaxValue(outs))
      && (ScriptChainTarget(tx).Some? ==>
            var change := ScriptChainTarget(tx).value;
            && (tx.vout[0].value <= tx.vout[1].value ==> change == tx.vout[0].address)
            && (tx.vout[0].value > tx.vout[1].value ==> change == tx.vout[1].address))
  {
    if |tx.vin| >= 2 {
      NarrowSumBounds(InputValues(tx));
    }
  }

  /** The narrow sum contains the first value and the current minimum, and never exceeds the
      total. */
  lemma {:induction false} NarrowSumBounds(vals: seq<nat>)
    requires |vals| > 0
    ensures vals[0] <= NarrowSum(vals) && MinValue(vals) <= NarrowSum(vals) <= Sum(vals)
    decreases |vals|
  {
    if |vals| > 1 {
      var p := vals[..|vals| - 1];
      NarrowSumBounds(p);
      assert Sum(vals) == Sum(p) + vals[|vals| - 1];
      assert p[0] == vals[0];
    } else {
      assert Sum(vals) == Sum(vals[..0]) + vals[0];
    }
  }

  /** Inputs worth 5, 3, 4 and outputs worth 5, 1: the source's sum is 5 + 3 = 8, so
      8 - 3 <= 5 and the rule attaches the change; the total 12 gives 12 - 3 > 5, so the rule
      as described would not. */
  lemma NarrowSumAdmitsMore()
    ensures var tx := Transaction([TxInput("i0", false, 5), TxInput("i1", false, 3), TxInput("i2", false, 4)],
                                  [TxOutput("pay", 5), TxOutput("chg", 1)]);
      var ins := InputValues(tx);
      && NarrowSum(ins) == 8 && Sum(ins) == 12 && MinValue(ins) == 3
      && ScriptChainTarget(tx) == Some("chg")
      && Sum(ins) - MinValue(ins) > MaxValue(OutputValues(tx))
  {
    var tx := Transaction([TxInput("i0", false, 5), TxInput("i1", false, 3), TxInput("i2", false, 4)],
                          [TxOutput("pay", 5), TxOutput("chg", 1)]);
    var ins := InputValues(tx);
    assert ins == [5, 3, 4];
    assert ins[..2] == [5, 3] && ins[..2][..1] == [5];
    assert OutputValues(tx) == [5, 1] && OutputValues(tx)[..1] == [5];
    assert Sum([5]) == Sum([]) + 5;
    assert Sum([5, 3]) == Sum([5]) + 3 by { assert [5, 3][..1] == [5]; }
    assert Sum([5, 3, 4]) == Sum([5, 3]) + 4 by { assert [5, 3, 4][..2] == [5, 3]; }
  }

  // ---------------------------------------------------------------- coinbase and the pass

  /** A coinbase transaction yields one brand-new entity whose wallets are exactly its output
      addresses, each mapped to it whatever it was mapped to before; no entity changes and
      none of the other heuristics runs. */
  lemma CoinbaseIsolation(s: State, freq: map<Wallet, int>, tx: Transaction)
    requires WellFormed(tx) && tx.vin[0].isCoinbase && Consistent(s)
    ensures var id := NextId(s.pool); var outs := SetOf(OutputAddresses(tx)); var t := Step(s, freq, tx).0;
      && id !in s.entities
      && t.entities == s.entities[id := outs]
      && (forall w | w in outs :: w in t.walletToEntity && t.walletToEntity[w] == id)
      && (forall w | w in s.walletToEntity && w !in outs :: t.walletToEntity[w] == s.walletToEntity[w])
      && t.pool == AfterIssue(s.pool)
      && Consistent(t)
  {
    CreateEntityFresh(s, SetOf(OutputAddresses(tx)));
  }

  /** Heuristics 2 and 3 keep the invariant once the first input is mapped. */
  lemma ApplyTargetKeepsConsistent(s: State, tx: Transaction, target: Option<Wallet>)
    requires WellFormed(tx) && Consistent(s) && tx.vin[0].address in s.walletToEntity
    ensures var t := ApplyTarget(s, tx, target);
      Consistent(t) && tx.vin[0].address in t.walletToEntity
  {
    if target.Some? {
      ApplyTargetAttaches(s, tx, target.value);
    }
  }

  /** One transaction keeps the invariant unless its merge meets the same id twice. */
  lemma StepKeepsConsistent(s: State, freq: map<Wallet, int>, tx: Transaction)
    requires WellFormed(tx) && Consistent(s) && CleanMerge(s, tx)
    ensures Consistent(Step(s, freq, tx).0)
  {
    if tx.vin[0].isCoinbase {
      CreateEntityFresh(s, SetOf(OutputAddresses(tx)));
    } else {
      var f := CountOutputs(freq, OutputAddresses(tx));
      var s1 := CommonInput(s, tx);
      CommonInputKeepsConsistent(s, tx);
      assert tx.vin[0].address in InputAddresses(tx);
      ApplyTargetKeepsConsistent(s1, tx, ChangeAddressTarget(f, tx));
      var s2 := ChangeAddress(s1, f, tx);
      ApplyTargetKeepsConsistent(s2, tx, ScriptChainTarget(tx));
    }
  }

  /** A whole block keeps the invariant when no merge meets the same id twice. */
  lemma {:induction false} RunKeepsConsistent(s: State, freq: map<Wallet, int>, block: seq<Transaction>)
    requires AllWellFormed(block) && Consistent(s) && CleanRun(s, freq, block)
    ensures Consistent(Run(s, freq, block).0)
    decreases |block|
  {
    if block != [] {
      var p := block[..|block| - 1];
      RunKeepsConsistent(s, freq, p);
      var r := Run(s, freq, p);
      StepKeepsConsistent(r.0, r.1, block[|block| - 1]);
    }
  }
}
