/** Rebuilding the clustering state from stored documents at start-up (`iterate_documents`,
    main.cpp:19-50). The two database cursors are sequences of documents; the database
    itself, the string-to-integer parsing of the stored ids and the console are not part of
    this model. */
module Restore {
  import opened Definition
  import opened Entities
  import opened Registry
  import opened HeuristicsSpec
  import opened Heuristics

  /** A stored `(wallet, entityID)` document. */
  datatype AddressDoc = AddressDoc(wallet: Wallet, entityId: nat)

  /** A stored `(wallet, frequency)` document. */
  datatype ReuseDoc = ReuseDoc(wallet: Wallet, frequency: int)

  /** The state while the address cursor is read: the clustering state, the ids already met
      (the local `map` of main.cpp:25, whose entries are only ever set to true) and the running
      `lastEntityID`. */
  datatype Loading = Loading(state: State, seen: set<nat>, last: nat)

  function Max(a: nat, b: nat): nat {
    if a < b then b else a
  }

  /** One address document (main.cpp:28-40). A first-met id gets `entities[id] = entity`,
      which default-constructs the slot (drawing an allocator id) and then overwrites it with
      the one-wallet entity; a later one adds the wallet through `entities[id]`. */
  function LoadOne(l: Loading, d: AddressDoc): Loading {
    var s := l.state.(walletToEntity := l.state.walletToEntity[d.wallet := d.entityId]);
    var s1 := Slot(s, d.entityId);
    var wallets := if d.entityId in l.seen then s1.entities[d.entityId] + {d.wallet} else {d.wallet};
    Loading(s1.(entities := s1.entities[d.entityId := wallets]), l.seen + {d.entityId}, Max(d.entityId, l.last))
  }

  function LoadAll(l: Loading, docs: seq<AddressDoc>): Loading
    decreases |docs|
  {
    if docs == [] then l else LoadOne(LoadAll(l, docs[..|docs| - 1]), docs[|docs| - 1])
  }

  /** `reuseFrequency[wallet] = frequency` for each reuse document (main.cpp:45-49). */
  function LoadReuse(freq: map<Wallet, int>, docs: seq<ReuseDoc>): map<Wallet, int>
    decreases |docs|
  {
    if docs == [] then freq
    else
      var d := docs[|docs| - 1];
      LoadReuse(freq, docs[..|docs| - 1])[d.wallet := d.frequency]
  }

  /** The whole of `iterate_documents`: the clustering state, the reuse counts and the new
      `lastEntityID`. The allocator counter becomes `lastEntityID + 1` unless that is 0. */
  function Restored(s: State, freq: map<Wallet, int>, last: nat, docs: seq<AddressDoc>, reuse: seq<ReuseDoc>)
    : (State, map<Wallet, int>, nat)
  {
    var l := LoadAll(Loading(s, {}, last), docs);
    var pool := if l.last != 0 then l.state.pool.(counter := l.last + 1) else l.state.pool;
    (l.state.(pool := pool), LoadReuse(freq, reuse), l.last)
  }

  /** The entity ids the documents name. */
  function IdsOf(docs: seq<AddressDoc>): set<nat> {
    set k | 0 <= k < |docs| :: docs[k].entityId
  }

  /** The wallets the documents name. */
  function WalletsOfDocs(docs: seq<AddressDoc>): set<Wallet> {
    set k | 0 <= k < |docs| :: docs[k].wallet
  }

  /** The wallets the documents place in entity `id`. */
  function WalletsWithId(docs: seq<AddressDoc>, id: nat): set<Wallet> {
    set k | 0 <= k < |docs| && docs[k].entityId == id :: docs[k].wallet
  }

  lemma IdsOfSnoc(docs: seq<AddressDoc>, d: AddressDoc)
    ensures IdsOf(docs + [d]) == IdsOf(docs) + {d.entityId}
    ensures forall id :: (WalletsWithId(docs + [d], id) ==
      WalletsWithId(docs, id) + (if d.entityId == id then {d.wallet} else {}))
  {
    var e := docs + [d];
    assert forall k | 0 <= k < |docs| :: e[k] == docs[k];
    assert e[|docs|] == d;
    forall id ensures WalletsWithId(e, id) ==
      WalletsWithId(docs, id) + (if d.entityId == id then {d.wallet} else {})
    {
      forall w | w in WalletsWithId(e, id)
        ensures w in WalletsWithId(docs, id) + (if d.entityId == id then {d.wallet} else {})
      {
        var k :| 0 <= k < |e| && e[k].entityId == id && e[k].wallet == w;
        if k < |docs| { assert docs[k].entityId == id && docs[k].wallet == w; }
      }
    }
  }

  /** The ids met are the documents' ids, and each of them is live afterwards. */
  lemma {:induction false} LoadedKeys(s: State, last: nat, docs: seq<AddressDoc>)
    ensures var l := LoadAll(Loading(s, {}, last), docs);
      l.seen == IdsOf(docs) && l.state.entities.Keys == s.entities.Keys + IdsOf(docs)
    decreases |docs|
  {
    if docs != [] {
      var p, d := docs[..|docs| - 1], docs[|docs| - 1];
      assert docs == p + [d];
      LoadedKeys(s, last, p);
      IdsOfSnoc(p, d);
    }
  }

  /** Every restored entity holds exactly the wallets its documents name, whatever the slot
      held before; entities no document names keep their wallets. */
  lemma {:induction false} LoadedEntities(s: State, last: nat, docs: seq<AddressDoc>)
    ensures var l := LoadAll(Loading(s, {}, last), docs);
      && l.seen == IdsOf(docs)
      && l.state.entities.Keys == s.entities.Keys + IdsOf(docs)
      && (forall id | id in IdsOf(docs) :: l.state.entities[id] == WalletsWithId(docs, id))
      && (forall id | id in s.entities && id !in IdsOf(docs) :: l.state.entities[id] == s.entities[id])
    decreases |docs|
  {
    if docs != [] {
      var p, d := docs[..|docs| - 1], docs[|docs| - 1];
      assert docs == p + [d];
      LoadedEntities(s, last, p);
      IdsOfSnoc(p, d);
    }
  }

  /** The returned `lastEntityID` is the largest of the given one and every document's id. */
  lemma {:induction false} LoadedLast(s: State, last: nat, docs: seq<AddressDoc>)
    ensures var l := LoadAll(Loading(s, {}, last), docs);
      && last <= l.last
      && (forall k | 0 <= k < |docs| :: docs[k].entityId <= l.last)
      && (l.last == last || l.last in IdsOf(docs))
    decreases |docs|
  {
    if docs != [] {
      var p, d := docs[..|docs| - 1], docs[|docs| - 1];
      assert docs == p + [d];
      LoadedLast(s, last, p);
      IdsOfSnoc(p, d);
      assert forall k | 0 <= k < |p| :: docs[k] == p[k];
    }
  }

  /** Each stored wallet maps to the id of its last document; other wallets keep their mapping. */
  lemma {:induction false} LoadedWallets(s: State, last: nat, docs: seq<AddressDoc>)
    ensures var m := LoadAll(Loading(s, {}, last), docs).state.walletToEntity;
      && (forall k | 0 <= k < |docs| && (forall j | k < j < |docs| :: docs[j].wallet != docs[k].wallet) ::
            docs[k].wallet in m && m[docs[k].wallet] == docs[k].entityId)
      && (forall w | (forall k | 0 <= k < |docs| :: docs[k].wallet != w) ::
            (w in m <==> w in s.walletToEntity) && (w in m ==> m[w] == s.walletToEntity[w]))
    decreases |docs|
  {
    if docs != [] {
      var p, d := docs[..|docs| - 1], docs[|docs| - 1];
      assert docs == p + [d];
      LoadedWallets(s, last, p);
      assert forall k | 0 <= k < |p| :: docs[k] == p[k];
    }
  }

  lemma IssueManySnoc(p: IdPool, n: nat)
    ensures IssueMany(p, n + 1).1 == AfterIssue(IssueMany(p, n).1)
    decreases n
  {
    if n > 0 {
      IssueManySnoc(AfterIssue(p), n - 1);
    }
  }

  lemma NewIdsSnoc(ids: set<nat>, live: set<nat>, x: nat)
    ensures x !in live && x !in ids ==> |(ids + {x}) - live| == |ids - live| + 1
    ensures x in live || x in ids ==> (ids + {x}) - live == ids - live
  {
    if x !in live && x !in ids {
      assert (ids + {x}) - live == (ids - live) + {x};
    }
  }

  /** Loading one document draws an id from the pool exactly when its entity is not yet in
      the map. */
  lemma LoadOnePool(l: Loading, d: AddressDoc)
    ensures LoadOne(l, d).state.pool
            == if d.entityId in l.state.entities then l.state.pool else AfterIssue(l.state.pool)
  {
  }

  /** Reading the address documents draws one allocator id for every id that was not live
      before: `entities[id] = entity` default-constructs the slot first. */
  lemma {:induction false} LoadedPool(s: State, last: nat, docs: seq<AddressDoc>)
    ensures LoadAll(Loading(s, {}, last), docs).state.pool == IssueMany(s.pool, |IdsOf(docs) - s.entities.Keys|).1
    decreases |docs|
  {
    if docs != [] {
      var p, d := docs[..|docs| - 1], docs[|docs| - 1];
      assert docs == p + [d];
      LoadedPool(s, last, p);
      LoadedKeys(s, last, p);
      IdsOfSnoc(p, d);
      NewIdsSnoc(IdsOf(p), s.entities.Keys, d.entityId);
      var l := LoadAll(Loading(s, {}, last), p);
      assert LoadAll(Loading(s, {}, last), docs) == LoadOne(l, d);
      LoadOnePool(l, d);
      IssueManySnoc(s.pool, |IdsOf(p) - s.entities.Keys|);
    }
  }

  /** Each wallet's count is the frequency of its last reuse document; other counts are kept. */
  lemma {:induction false} LoadedReuse(freq: map<Wallet, int>, docs: seq<ReuseDoc>)
    ensures var f := LoadReuse(freq, docs);
      && (forall k | 0 <= k < |docs| && (forall j | k < j < |docs| :: docs[j].wallet != docs[k].wallet) ::
            docs[k].wallet in f && f[docs[k].wallet] == docs[k].frequency)
      && (forall w | (forall k | 0 <= k < |docs| :: docs[k].wallet != w) ::
            (w in f <==> w in freq) && (w in f ==> f[w] == freq[w]))
    decreases |docs|
  {
    if docs != [] {
      var p := docs[..|docs| - 1];
      LoadedReuse(freq, p);
      assert forall k | 0 <= k < |p| :: docs[k] == p[k];
    }
  }

  /** The state the program starts from: empty maps, counter 1, empty queue. */
  function Startup(): State {
    State(map[], map[], IdPool(1, []))
  }

  /** Every wallet of a document maps to the id of a document naming it. */
  lemma {:induction false} LoadedWalletKeys(s: State, last: nat, docs: seq<AddressDoc>)
    ensures var m := LoadAll(Loading(s, {}, last), docs).state.walletToEntity;
      m.Keys == s.walletToEntity.Keys + WalletsOfDocs(docs)
    decreases |docs|
  {
    if docs != [] {
      var p, d := docs[..|docs| - 1], docs[|docs| - 1];
      assert docs == p + [d];
      LoadedWalletKeys(s, last, p);
      assert forall k | 0 <= k < |p| :: docs[k] == p[k];
      assert WalletsOfDocs(docs) == WalletsOfDocs(p) + {d.wallet};
    }
  }

  /** Reading the address documents at start-up: every id the documents name becomes an entity
      holding exactly its documents' wallets, every document's wallet is mapped, and the counter
      has advanced once per distinct id. */
  lemma StartupLoad(docs: seq<AddressDoc>)
    ensures var l := LoadAll(Loading(Startup(), {}, 0), docs);
      && l.state.entities.Keys == IdsOf(docs)
      && (forall id | id in l.state.entities :: l.state.entities[id] == WalletsWithId(docs, id))
      && l.state.walletToEntity.Keys == WalletsOfDocs(docs)
      && l.state.pool == IdPool(1 + |IdsOf(docs)|, [])
  {
    var s := Startup();
    LoadedKeys(s, 0, docs);
    LoadedEntities(s, 0, docs);
    LoadedWalletKeys(s, 0, docs);
    LoadedPool(s, 0, docs);
    assert IdsOf(docs) - s.entities.Keys == IdsOf(docs);
    CountedIdsIncrease(1, |IdsOf(docs)|);
  }

  /** Restoring at start-up yields exactly the stored clustering: entity `id` holds the wallets
      of its documents and each wallet maps to the id of its last document. The counter is
      `lastEntityID + 1`, or, when every stored id is 0, it has been advanced once by the
      default construction of slot 0. */
  lemma RestoreFromStartup(docs: seq<AddressDoc>, reuse: seq<ReuseDoc>)
    ensures var r := Restored(Startup(), map[], 0, docs, reuse);
      && r.0.entities.Keys == IdsOf(docs)
      && (forall id | id in r.0.entities :: r.0.entities[id] == WalletsWithId(docs, id))
      && (forall k | 0 <= k < |docs| && (forall j | k < j < |docs| :: docs[j].wallet != docs[k].wallet) ::
            docs[k].wallet in r.0.walletToEntity && r.0.walletToEntity[docs[k].wallet] == docs[k].entityId)
      && r.0.walletToEntity.Keys == WalletsOfDocs(docs)
      && (forall k | 0 <= k < |docs| :: docs[k].entityId <= r.2)
      && r.0.pool == (if r.2 != 0 then IdPool(r.2 + 1, []) else IdPool(1 + |IdsOf(docs)|, []))
  {
    var s := Startup();
    StartupLoad(docs);
    LoadedLast(s, 0, docs);
    LoadedWallets(s, 0, docs);
  }

  /** The restored start-up state satisfies the invariant the heuristics keep: each mapped
      wallet's entity exists and holds it, and every live id is below the counter. */
  lemma RestoreFromStartupConsistent(docs: seq<AddressDoc>, reuse: seq<ReuseDoc>)
    ensures Consistent(Restored(Startup(), map[], 0, docs, reuse).0)
  {
    RestoreFromStartup(docs, reuse);
    var r := Restored(Startup(), map[], 0, docs, reuse);
    var t := r.0;
    forall w | w in t.walletToEntity
      ensures t.walletToEntity[w] in t.entities && w in t.entities[t.walletToEntity[w]]
    {
      assert w in WalletsOfDocs(docs);
      var k0 :| 0 <= k0 < |docs| && docs[k0].wallet == w;
      var k := LastWith(docs, k0);
      var id := docs[k].entityId;
      assert t.walletToEntity[w] == id;
      assert id in IdsOf(docs);
      assert w in WalletsWithId(docs, id);
    }
    forall id | id in t.entities ensures id < t.pool.counter {
      assert id in IdsOf(docs);
      var k :| 0 <= k < |docs| && docs[k].entityId == id;
      assert id <= r.2;
      if r.2 == 0 {
        assert t.pool.counter == 1 + |IdsOf(docs)|;
      }
    }
  }

  /** The last document with the wallet of document `k`. */
  lemma LastWith(docs: seq<AddressDoc>, k: nat) returns (j: nat)
    requires k < |docs|
    ensures k <= j < |docs| && docs[j].wallet == docs[k].wallet
    ensures forall i | j < i < |docs| :: docs[i].wallet != docs[k].wallet
    decreases |docs| - k
  {
    if exists i | k < i < |docs| :: docs[i].wallet == docs[k].wallet {
      var i :| k < i < |docs| && docs[i].wallet == docs[k].wallet;
      j := LastWith(docs, i);
    } else {
      j := k;
    }
  }

  /** `iterate_documents` (main.cpp:19-50) on the clustering object, returning the new
      `lastEntityID`. */
  method IterateDocuments(c: Clustering, addressDocs: seq<AddressDoc>, reuseDocs: seq<ReuseDoc>, lastEntityId: nat)
    returns (last: nat)
    modifies c, c.pool
    ensures (c.Reg(), c.reuseFrequency, last) ==
      Restored(old(c.Reg()), old(c.reuseFrequency), lastEntityId, addressDocs, reuseDocs)
  {
    var seen: set<nat> := {};
    last := lastEntityId;
    var i := 0;
    while i < |addressDocs|
      invariant 0 <= i <= |addressDocs|
      invariant Loading(c.Reg(), seen, last) == LoadAll(Loading(old(c.Reg()), {}, lastEntityId), addressDocs[..i])
      invariant c.reuseFrequency == old(c.reuseFrequency)
    {
      assert addressDocs[..i + 1][..i] == addressDocs[..i];
      ghost var before := Loading(c.Reg(), seen, last);
      assert LoadAll(Loading(old(c.Reg()), {}, lastEntityId), addressDocs[..i + 1]) == LoadOne(before, addressDocs[i]);
      var wallet, entityId := addressDocs[i].wallet, addressDocs[i].entityId;
      c.walletToEntity := c.walletToEntity[wallet := entityId];
      ghost var s := c.Reg();
      assert s == before.state.(walletToEntity := before.state.walletToEntity[wallet := entityId]);
      if entityId in seen {
        c.EntitySlot(entityId);
        assert c.Reg() == Slot(s, entityId);
        c.entities := c.entities[entityId := c.entities[entityId] + {wallet}];
        assert c.Reg() == LoadOne(before, addressDocs[i]).state;
      } else {
        var entity := new Entity.WithId(entityId);
        entity.AddWallet(wallet);
        assert c.Reg() == s;
        c.EntitySlot(entityId);
        assert c.Reg() == Slot(s, entityId);
        assert entity.wallets == {wallet};
        c.entities := c.entities[entityId := entity.wallets];
        assert c.Reg() == LoadOne(before, addressDocs[i]).state;
        seen := seen + {entityId};
      }
      last := Max(entityId, last);
      assert Loading(c.Reg(), seen, last) == LoadOne(before, addressDocs[i]);
      i := i + 1;
    }
    assert addressDocs[..|addressDocs|] == addressDocs;
    if last != 0 {
      c.pool.SetEntitiesCount(last);
    }
    var j := 0;
    while j < |reuseDocs|
      invariant 0 <= j <= |reuseDocs|
      invariant c.reuseFrequency == LoadReuse(old(c.reuseFrequency), reuseDocs[..j])
      invariant c.Reg() == Restored(old(c.Reg()), old(c.reuseFrequency), lastEntityId, addressDocs, reuseDocs).0
      invariant last == LoadAll(Loading(old(c.Reg()), {}, lastEntityId), addressDocs).last
    {
      assert reuseDocs[..j + 1][..j] == reuseDocs[..j];
      c.reuseFrequency := c.reuseFrequency[reuseDocs[j].wallet := reuseDocs[j].frequency];
      j := j + 1;
    }
    assert reuseDocs[..|reuseDocs|] == reuseDocs;
  }
}
