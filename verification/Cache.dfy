/** The staged-response cache of internal/cache/cache.go. Times are readings of the monotone clock. */
module Cache {
  import opened Basics
  import opened Text
  import opened Charges

  const DEFAULT_TTL: int := 180_000_000_000

  /** A priced response held until it is paid for. */
  datatype Entry = Entry(
    body: string, status: int, contentType: string, cost: int, usage: Usage, model: string, createdAt: int)

  type Entries = map<string, Entry>

  predicate Expired(e: Entry, ttl: int, now: int) {
    now - e.createdAt > ttl
  }

  // ----- the operations on values -----

  function Lookup(store: Entries, ttl: int, id: string, now: int): Option<Entry> {
    if id !in store || Expired(store[id], ttl, now) then None else Some(store[id])
  }

  function Stored(store: Entries, id: string, e: Entry, now: int): Entries {
    store[id := e.(createdAt := now)]
  }

  function Swept(store: Entries, ttl: int, now: int): Entries {
    map id | id in store && !Expired(store[id], ttl, now) :: store[id]
  }

  /** What was stored is what a Get finds, for as long as the time to live, and no other id is touched. */
  lemma StoredIsFound(store: Entries, ttl: int, id: string, e: Entry, now: int, other: string, at: int)
    ensures Lookup(Stored(store, id, e, now), ttl, id, at)
            == if at - now <= ttl then Some(e.(createdAt := now)) else None
    ensures other != id ==> Lookup(Stored(store, id, e, now), ttl, other, at) == Lookup(store, ttl, other, at)
  {
  }

  class Cache {
    var store: Entries
    const ttl: int

    constructor (ttl: int)
      ensures store == map[]
      ensures this.ttl == if ttl > 0 then ttl else DEFAULT_TTL
    {
      store := map[];
      this.ttl := if ttl <= 0 then DEFAULT_TTL else ttl;
    }

    method Store(id: string, e: Entry, now: int)
      modifies this
      ensures store == old(store)[id := e.(createdAt := now)] == Stored(old(store), id, e, now)
    {
      var stamped := e.(createdAt := now);
      store := store[id := stamped];
    }

    method Get(id: string, now: int) returns (r: Option<Entry>)
      ensures r == Lookup(store, ttl, id, now)
      ensures r.Some? <==> id in store && now - store[id].createdAt <= ttl
      ensures r.Some? ==> r.value == store[id]
    {
      if id !in store || now - store[id].createdAt > ttl {
        return None;
      }
      return Some(store[id]);
    }

    method Delete(id: string)
      modifies this
      ensures store == old(store) - {id}
    {
      store := store - {id};
    }

    /** One pass of the sweeper; the map is ranged over in any order while entries are deleted from it. */
    method Sweep(now: int)
      modifies this
      ensures store == Swept(old(store), ttl, now)
      ensures forall id :: id in store <==> id in old(store) && now - old(store)[id].createdAt <= ttl
      ensures forall id :: id in store ==> store[id] == old(store)[id]
    {
      var rest := store.Keys;
      while rest != {}
        invariant rest <= store.Keys <= old(store).Keys
        invariant forall id :: id in store ==> store[id] == old(store)[id]
        invariant forall id :: id in old(store) && id !in rest ==>
                    (id in store <==> !Expired(old(store)[id], ttl, now))
      {
        var id :| id in rest;
        if now - store[id].createdAt > ttl {
          store := store - {id};
        }
        rest := rest - {id};
      }
    }
  }

  // ----- the sweeper is invisible -----

  datatype Op =
    | OpStore(id: string, entry: Entry)
    | OpGet(id: string)
    | OpDelete(id: string)
    | OpSweep

  /** An operation and the clock reading it happens at. */
  datatype Timed = Timed(op: Op, now: int)

  function After(store: Entries, ttl: int, t: Timed): Entries {
    match t.op
    case OpStore(id, e) => Stored(store, id, e, t.now)
    case OpGet(_) => store
    case OpDelete(id) => store - {id}
    case OpSweep => Swept(store, ttl, t.now)
  }

  /** What the operation shows its caller. */
  function Shown(store: Entries, ttl: int, t: Timed): seq<Option<Entry>> {
    if t.op.OpGet? then [Lookup(store, ttl, t.op.id, t.now)] else []
  }

  function Observe(store: Entries, ttl: int, ops: seq<Timed>): seq<Option<Entry>>
    decreases ops
  {
    if ops == [] then [] else Shown(store, ttl, ops[0]) + Observe(After(store, ttl, ops[0]), ttl, ops[1..])
  }

  /** The same operations on a map that is never swept. */
  function ObserveUnswept(store: Entries, ttl: int, ops: seq<Timed>): seq<Option<Entry>>
    decreases ops
  {
    if ops == [] then []
    else if ops[0].op.OpSweep? then ObserveUnswept(store, ttl, ops[1..])
    else Shown(store, ttl, ops[0]) + ObserveUnswept(After(store, ttl, ops[0]), ttl, ops[1..])
  }

  predicate Monotone(ops: seq<Timed>, from: int) {
    && (forall i :: 0 <= i < |ops| ==> from <= ops[i].now)
    && (forall i, j :: 0 <= i <= j < |ops| ==> ops[i].now <= ops[j].now)
  }

  /** The swept map is the reference map less some entries that have expired by `now`. */
  ghost predicate Simulates(swept: Entries, reference: Entries, ttl: int, now: int) {
    && (forall id :: id in swept ==> id in reference && reference[id] == swept[id])
    && (forall id :: id in reference && id !in swept ==> Expired(reference[id], ttl, now))
  }

  lemma {:induction false} SimulationObserves(swept: Entries, reference: Entries, ttl: int, ops: seq<Timed>, now: int)
    requires Simulates(swept, reference, ttl, now) && Monotone(ops, now)
    ensures Observe(swept, ttl, ops) == ObserveUnswept(reference, ttl, ops)
    decreases ops
  {
    if ops == [] {
    } else {
      var t := ops[0];
      var reference' := if t.op.OpSweep? then reference else After(reference, ttl, t);
      assert Simulates(After(swept, ttl, t), reference', ttl, t.now);
      SimulationObserves(After(swept, ttl, t), reference', ttl, ops[1..], t.now);
    }
  }

  /**
   * Every sequence of Store, Get, Delete and sweeps under a monotone clock shows its callers exactly what a
   * never-swept map with expiry would.
   */
  lemma SweepingIsInvisible(store: Entries, ttl: int, ops: seq<Timed>, now: int)
    requires Monotone(ops, now)
    ensures Observe(store, ttl, ops) == ObserveUnswept(store, ttl, ops)
  {
    SimulationObserves(store, store, ttl, ops, now);
  }

  /**
   * What the monotone clock is for: a sweep at `at` shows in a later Get whose clock reads `readAt` exactly when the
   * entry had expired at the sweep and has not at the Get, so only when the clock went back. Go's monotonic readings
   * rule that out; the hypothesis of SweepingIsInvisible stands for them.
   */
  lemma SweepShowsExactly(store: Entries, ttl: int, id: string, at: int, readAt: int)
    ensures var ops := [Timed(OpSweep, at), Timed(OpGet(id), readAt)];
            Observe(store, ttl, ops) != ObserveUnswept(store, ttl, ops)
            <==> id in store && Expired(store[id], ttl, at) && !Expired(store[id], ttl, readAt)
    ensures id in store && Expired(store[id], ttl, at) && !Expired(store[id], ttl, readAt) ==> readAt < at
  {
    var sweep, get := Timed(OpSweep, at), Timed(OpGet(id), readAt);
    assert [sweep, get][1..] == [get] && [get][1..] == [];
    ObserveGet(Swept(store, ttl, at), ttl, get);
    ObserveGet(store, ttl, get);
    hide Observe, ObserveUnswept, Lookup;
    assert Observe(store, ttl, [sweep, get]) == [Lookup(Swept(store, ttl, at), ttl, id, readAt)] by {
      TwoOps(store, ttl, sweep, get);
    }
    assert ObserveUnswept(store, ttl, [sweep, get]) == [Lookup(store, ttl, id, readAt)] by {
      TwoOps(store, ttl, sweep, get);
    }
    SweptLookup(store, ttl, id, at, readAt);
  }

  lemma ObserveGet(store: Entries, ttl: int, get: Timed)
    requires get.op.OpGet?
    ensures Observe(store, ttl, [get]) == ObserveUnswept(store, ttl, [get]) == [Lookup(store, ttl, get.op.id, get.now)]
  {
    assert [get][1..] == [];
    var shown := [Lookup(store, ttl, get.op.id, get.now)];
    assert Observe(store, ttl, [get]) == shown + Observe(store, ttl, []);
    assert ObserveUnswept(store, ttl, [get]) == shown + ObserveUnswept(store, ttl, []);
  }

  lemma TwoOps(store: Entries, ttl: int, sweep: Timed, get: Timed)
    requires sweep.op.OpSweep?
    ensures Observe(store, ttl, [sweep, get]) == Observe(Swept(store, ttl, sweep.now), ttl, [get])
    ensures ObserveUnswept(store, ttl, [sweep, get]) == ObserveUnswept(store, ttl, [get])
  {
    assert [sweep, get][1..] == [get];
  }

  lemma SweptLookup(store: Entries, ttl: int, id: string, at: int, readAt: int)
    ensures Lookup(Swept(store, ttl, at), ttl, id, readAt) != Lookup(store, ttl, id, readAt)
            <==> id in store && Expired(store[id], ttl, at) && !Expired(store[id], ttl, readAt)
  {
  }

  // ----- request ids -----

  /** RequestID over a hash that already yields the truncated hex digest. */
  function RequestID(hash: string -> string, input: string): string {
    "req_" + hash(input)
  }

  /** What handleInitial hashes: the body, a bar, and the clock in nanoseconds. */
  function StampedBody(body: string, nanos: int): string {
    body + "|" + DecimalInt(nanos)
  }

  /** Distinct bodies, or equal bodies read at distinct times, are hashed differently. */
  lemma StampInjective(body: string, nanos: int, body': string, nanos': int)
    ensures StampedBody(body, nanos) == StampedBody(body', nanos') <==> body == body' && nanos == nanos'
  {
    if StampedBody(body, nanos) == StampedBody(body', nanos') {
      var s, d, d' := StampedBody(body, nanos), DecimalInt(nanos), DecimalInt(nanos');
      LastBar(body, nanos);
      LastBar(body', nanos');
      assert s[..|body|] == body && s[..|body'|] == body';
      assert s[|body| + 1..] == d && s[|body'| + 1..] == d';
      DecimalIntInjective(nanos, nanos');
    }
  }

  /** The text is the body, then a bar, then the time in decimal. */
  lemma StampReads(body: string, nanos: int)
    ensures var s := StampedBody(body, nanos);
            |s| > |body| && s[..|body|] == body && s[|body|] == '|' && ParseInt10(s[|body| + 1..]) == Some(nanos)
  {
    ParsePrintedInt(nanos);
    assert StampedBody(body, nanos)[|body| + 1..] == DecimalInt(nanos);
  }

  /** The bar StampedBody inserts is the last one. */
  lemma LastBar(body: string, nanos: int)
    ensures var s := StampedBody(body, nanos);
            s[|body|] == '|' && forall k :: |body| < k < |s| ==> s[k] != '|'
  {
    var s, d := StampedBody(body, nanos), DecimalInt(nanos);
    DecimalIntHasNoBar(nanos);
    forall k | |body| < k < |s|
      ensures s[k] != '|'
    {
      assert s[k] == d[k - |body| - 1] && d[k - |body| - 1] in d;
    }
  }

  /** Unless the hash collides on these two texts, two ids agree exactly when the bodies and the times do. */
  lemma RequestIDInjective(hash: string -> string, body: string, nanos: int, body': string, nanos': int)
    requires var a, b := StampedBody(body, nanos), StampedBody(body', nanos'); hash(a) == hash(b) ==> a == b
    ensures RequestID(hash, StampedBody(body, nanos)) == RequestID(hash, StampedBody(body', nanos'))
            <==> body == body' && nanos == nanos'
  {
    var a, b := StampedBody(body, nanos), StampedBody(body', nanos');
    StampInjective(body, nanos, body', nanos');
    if RequestID(hash, a) == RequestID(hash, b) {
      assert RequestID(hash, a)[4..] == hash(a) && RequestID(hash, b)[4..] == hash(b);
    }
  }
}
