/** The shared clustering state that the heuristics mutate (heuristics.h:11-15), as a value:
    `entities: id -> wallet set`, `walletToEntity: wallet -> id` and the id allocator's pool.
    The source's `unordered_map::operator[]` default-constructs a missing value; for
    `entities` that runs `Entity()`, which consumes an id from the allocator. `Slot` and
    `EntityOf` model those two lookups exactly. */
module Registry {
  import opened Definition
  import opened Entities

  datatype State = State(entities: map<nat, set<Wallet>>, walletToEntity: map<Wallet, nat>, pool: IdPool)

  /** `entities[id]`: a missing key gets a default-constructed (empty) entity, and the
      construction takes the allocator's next id. */
  function Slot(s: State, id: nat): (t: State)
    ensures id in t.entities && t.walletToEntity == s.walletToEntity
  {
    if id in s.entities then s
    else s.(entities := s.entities[id := {}], pool := AfterIssue(s.pool))
  }

  /** `walletToEntity[w]`: a missing wallet is inserted with id 0. */
  function EntityOf(s: State, w: Wallet): (State, nat) {
    if w in s.walletToEntity then (s, s.walletToEntity[w])
    else (s.(walletToEntity := s.walletToEntity[w := 0]), 0)
  }

  /** `entities[id].addWallet(w); walletToEntity[w] = id;` (heuristics.cpp:88-89, 108-109, 139-140). */
  function Assign(s: State, id: nat, w: Wallet): (t: State)
    ensures id in t.entities && w in t.entities[id]
    ensures w in t.walletToEntity && t.walletToEntity[w] == id
  {
    var s1 := Slot(s, id);
    s1.(entities := s1.entities[id := s1.entities[id] + {w}], walletToEntity := s1.walletToEntity[w := id])
  }

  /** `m` with every wallet of `ws` (re)mapped to `id`. */
  function MapAll(m: map<Wallet, nat>, ws: set<Wallet>, id: nat): (r: map<Wallet, nat>)
    ensures r.Keys == m.Keys + ws
  {
    map w | w in m.Keys + ws :: if w in ws then id else m[w]
  }

  /** Mapping one more wallet is one more map update. */
  lemma MapAllInsert(m: map<Wallet, nat>, ws: set<Wallet>, w: Wallet, id: nat)
    ensures MapAll(m, ws + {w}, id) == MapAll(m, ws, id)[w := id]
  {
  }

  /** Adds every wallet of `ws` to entity `id` and maps it there (heuristics.cpp:66-69). */
  function Attach(s: State, id: nat, ws: set<Wallet>): State
    requires id in s.entities
  {
    s.(entities := s.entities[id := s.entities[id] + ws], walletToEntity := MapAll(s.walletToEntity, ws, id))
  }

  /** One association is an attachment of a single wallet. */
  lemma AssignIsAttach(s: State, id: nat, w: Wallet)
    ensures Assign(s, id, w) == Attach(Slot(s, id), id, {w})
  {
    var s1 := Slot(s, id);
    MapAllInsert(s1.walletToEntity, {}, w, id);
    assert MapAll(s1.walletToEntity, {}, id) == s1.walletToEntity;
  }

  /** Associating wallets one at a time is attaching them all at once. */
  lemma AttachThenAssign(s: State, id: nat, ws: set<Wallet>, w: Wallet)
    requires id in s.entities
    ensures Assign(Attach(s, id, ws), id, w) == Attach(s, id, ws + {w})
  {
    MapAllInsert(s.walletToEntity, ws, w, id);
    assert s.entities[id] + ws + {w} == s.entities[id] + (ws + {w});
  }

  /** `Entity entity;` with `ws` added and mapped to its id, then `entities.insert`, which
      leaves an existing key untouched (heuristics.cpp:72-78, 148-154). */
  function CreateEntity(s: State, ws: set<Wallet>): State {
    var id := NextId(s.pool);
    State(if id in s.entities then s.entities else s.entities[id := ws],
          MapAll(s.walletToEntity, ws, id),
          AfterIssue(s.pool))
  }

  /** Every element occurs once. */
  predicate Distinct(s: seq<nat>) {
    forall x | x in s :: multiset(s)[x] == 1
  }

  /** The invariant the heuristics keep on clean inputs: each mapped wallet's entity exists and
      contains it; live ids are below the counter; queued ids are distinct, not live, and
      below the counter. A wallet may still sit in the set of an entity it no longer maps to. */
  ghost predicate Consistent(s: State) {
    && (forall w | w in s.walletToEntity ::
          s.walletToEntity[w] in s.entities && w in s.entities[s.walletToEntity[w]])
    && (forall id | id in s.entities :: id < s.pool.counter)
    && (forall id | id in s.pool.freeQ :: id !in s.entities && id < s.pool.counter)
    && Distinct(s.pool.freeQ)
  }

  /** On a consistent state the next allocated id is not live, and allocating it keeps the
      pool's part of the invariant. */
  lemma FreshIdIsFree(s: State)
    requires Consistent(s)
    ensures NextId(s.pool) !in s.entities
    ensures var p := AfterIssue(s.pool);
      && NextId(s.pool) < p.counter
      && (forall id | id in s.entities :: id < p.counter)
      && (forall id | id in p.freeQ :: id !in s.entities && id != NextId(s.pool) && id < p.counter)
      && Distinct(p.freeQ)
  {
    var q := s.pool.freeQ;
    if q != [] {
      assert q == [q[0]] + q[1..];
      assert multiset(q) == multiset{q[0]} + multiset(q[1..]);
      forall x | x in q[1..] ensures multiset(q[1..])[x] == 1 && x != q[0] {
        assert multiset(q)[x] == 1;
      }
    }
  }

  /** A fresh entity on a consistent state: it gets exactly `ws`, every wallet of `ws` maps to
      it, all other entities and mappings are unchanged, and the invariant is kept. */
  lemma CreateEntityFresh(s: State, ws: set<Wallet>)
    requires Consistent(s)
    ensures var id := NextId(s.pool); var t := CreateEntity(s, ws);
      && id !in s.entities
      && t.entities == s.entities[id := ws]
      && (forall w | w in ws :: w in t.walletToEntity && t.walletToEntity[w] == id)
      && (forall w | w in s.walletToEntity && w !in ws :: t.walletToEntity[w] == s.walletToEntity[w])
      && t.pool == AfterIssue(s.pool)
      && Consistent(t)
  {
    FreshIdIsFree(s);
  }

  /** When the allocator hands out an id that is still live (possible only if the invariant was
      already broken), `insert` is ignored and the new wallets are mapped to an entity that does
      not contain them. */
  lemma CreateEntityOnLiveId(s: State, ws: set<Wallet>, w: Wallet)
    requires NextId(s.pool) in s.entities && w in ws && w !in s.entities[NextId(s.pool)]
    ensures !Consistent(CreateEntity(s, ws))
  {
    var t := CreateEntity(s, ws);
    assert t.walletToEntity[w] == NextId(s.pool);
    assert w !in t.entities[t.walletToEntity[w]];
  }

  /** A single association written by the change-address or script-chain rule, with the id read
      from the (already mapped) first input address, keeps the invariant. */
  lemma AssignKeepsConsistent(s: State, from: Wallet, w: Wallet)
    requires Consistent(s) && from in s.walletToEntity
    ensures var t := Assign(s, s.walletToEntity[from], w);
      && t.pool == s.pool
      && t.entities.Keys == s.entities.Keys
      && Consistent(t)
  {
  }
}
