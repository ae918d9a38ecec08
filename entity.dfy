/** Entity identifiers and the entity record (entity.h, entity.cpp).

    The source keeps a process-wide counter (starting at 1) and a FIFO queue of freed ids
    as static members of `Entity`; here they are the fields of one `IdAllocator` object that
    every id-consuming operation names in its `modifies` clause. `IdPool` is the value view
    of that object, on which the reissue-order properties are proved. */
module Entities {
  import opened Definition

  /** Value view of the allocator: the next counter value and the queue of freed ids. */
  datatype IdPool = IdPool(counter: nat, freeQ: seq<nat>)

  /** The id that the next default-constructed `Entity` receives. */
  function NextId(p: IdPool): nat {
    if p.freeQ == [] then p.counter else p.freeQ[0]
  }

  /** The pool after one default construction. */
  function AfterIssue(p: IdPool): IdPool {
    if p.freeQ == [] then p.(counter := p.counter + 1) else p.(freeQ := p.freeQ[1..])
  }

  /** The pool after `pushToFreeID(id)`. */
  function Released(p: IdPool, id: nat): IdPool {
    p.(freeQ := p.freeQ + [id])
  }

  /** Releases `ids` one after the other. */
  function ReleaseAll(p: IdPool, ids: seq<nat>): IdPool
    decreases |ids|
  {
    if ids == [] then p else ReleaseAll(Released(p, ids[0]), ids[1..])
  }

  /** The ids handed out by `n` successive default constructions, and the pool afterwards. */
  function IssueMany(p: IdPool, n: nat): (seq<nat>, IdPool)
    decreases n
  {
    if n == 0 then ([], p)
    else
      var rest := IssueMany(AfterIssue(p), n - 1);
      ([NextId(p)] + rest.0, rest.1)
  }

  /** Releasing appends at the back of the queue and leaves the counter alone. */
  lemma {:induction false} ReleaseAllAppends(p: IdPool, ids: seq<nat>)
    ensures ReleaseAll(p, ids) == IdPool(p.counter, p.freeQ + ids)
    decreases |ids|
  {
    if ids != [] {
      ReleaseAllAppends(Released(p, ids[0]), ids[1..]);
      assert p.freeQ + [ids[0]] + ids[1..] == p.freeQ + ids;
    }
  }

  /** While the queue holds ids, allocations drain it front first and never touch the counter. */
  lemma {:induction false} QueueDrainsInOrder(counter: nat, q: seq<nat>)
    ensures IssueMany(IdPool(counter, q), |q|) == (q, IdPool(counter, []))
    decreases |q|
  {
    if q != [] {
      QueueDrainsInOrder(counter, q[1..]);
      assert [q[0]] + q[1..] == q;
    }
  }

  /** Ids freed by `pushToFreeID`, in any number and order, are reissued in exactly the order
      they were freed, after the ids already waiting, and before the counter advances. */
  lemma FreedIdsReissuedInOrder(p: IdPool, freed: seq<nat>)
    ensures IssueMany(ReleaseAll(p, freed), |p.freeQ| + |freed|) == (p.freeQ + freed, IdPool(p.counter, []))
  {
    ReleaseAllAppends(p, freed);
    QueueDrainsInOrder(p.counter, p.freeQ + freed);
  }

  /** With an empty queue, `n` allocations hand out `counter, counter + 1, ...` in that order:
      every counted id is at least the starting counter and they strictly increase. */
  lemma {:induction false} CountedIdsIncrease(counter: nat, n: nat)
    ensures var (ids, after) := IssueMany(IdPool(counter, []), n);
      && |ids| == n
      && after == IdPool(counter + n, [])
      && (forall k | 0 <= k < n :: ids[k] == counter + k)
      && (forall j, k | 0 <= j < k < n :: ids[j] < ids[k])
    decreases n
  {
    if n > 0 {
      CountedIdsIncrease(counter + 1, n - 1);
    }
  }

  /** The static counter and free-id queue of `Entity` (entity.h:11-12, entity.cpp:43-44). */
  class IdAllocator {
    var counter: nat
    var freeQ: seq<nat>

    function Pool(): IdPool
      reads this
    {
      IdPool(counter, freeQ)
    }

    /** The statics' initial values: `entitiescount = 1` and an empty queue. */
    constructor ()
      ensures counter == 1 && freeQ == []
    {
      counter := 1;
      freeQ := [];
    }

    /** The id choice made by the default constructor `Entity()`. */
    method Issue() returns (id: nat)
      modifies this
      ensures old(freeQ) == [] ==> id == old(counter) && counter == old(counter) + 1 && freeQ == []
      ensures old(freeQ) != [] ==> id == old(freeQ[0]) && freeQ == old(freeQ[1..]) && counter == old(counter)
      ensures id == NextId(old(Pool())) && Pool() == AfterIssue(old(Pool()))
    {
      if |freeQ| == 0 {
        id := counter;
        counter := counter + 1;
      } else {
        id := freeQ[0];
        freeQ := freeQ[1..];
      }
    }

    /** `setEntitiesCount(id)`: the next counted id becomes `id + 1`; the queue is untouched. */
    method SetEntitiesCount(id: nat)
      modifies this
      ensures counter == id + 1 && freeQ == old(freeQ)
    {
      counter := id + 1;
    }

    /** `pushToFreeID(id)`: the id joins the back of the queue. */
    method PushToFreeId(id: nat)
      modifies this
      ensures freeQ == old(freeQ) + [id] && counter == old(counter)
      ensures Pool() == Released(old(Pool()), id)
    {
      freeQ := freeQ + [id];
    }
  }

  /** An entity: an id fixed at construction and a set of wallets (entity.h:9-23). */
  class Entity {
    const id: nat
    var wallets: set<Wallet>

    /** `Entity()`: takes the oldest freed id if there is one, otherwise the counter value,
        advancing the counter. */
    constructor (pool: IdAllocator)
      modifies pool
      ensures old(pool.freeQ) == [] ==> id == old(pool.counter) && pool.counter == old(pool.counter) + 1 && pool.freeQ == []
      ensures old(pool.freeQ) != [] ==> id == old(pool.freeQ[0]) && pool.freeQ == old(pool.freeQ[1..]) && pool.counter == old(pool.counter)
      ensures wallets == {}
    {
      var n := pool.Issue();
      id := n;
      wallets := {};
    }

    /** `Entity(id)`: takes the given id and does not touch the allocator. */
    constructor WithId(id: nat)
      ensures this.id == id && wallets == {}
    {
      this.id := id;
      wallets := {};
    }

    /** `addWallet`: set insertion. Adding a wallet already present changes nothing, and no
        wallet is ever removed. */
    method AddWallet(wallet: Wallet)
      modifies this
      ensures wallets == old(wallets) + {wallet}
      ensures wallet in old(wallets) ==> wallets == old(wallets)
      ensures old(wallets) <= wallets && wallets - old(wallets) <= {wallet}
    {
      wallets := wallets + {wallet};
    }

    /** `getId`: the id chosen at construction; `id` is a constant, so no later call changes it. */
    method GetId() returns (r: nat)
      ensures r == id
    {
      r := id;
    }
  }
}
