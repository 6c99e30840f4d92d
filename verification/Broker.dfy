/**
 The in-process pub/sub broker (internal/realtime/broker.go): collection names
 mapped to their subscribed connections, and a bounded queue per connection.
 */
module Broker {

  /** A column value as auto-REST hands it around. */
  datatype Value = Null | Text(text: string) | Number(n: int)

  type Record = map<string, Value>

  datatype Event =
    | Created(collection: string, record: Record)
    | Updated(collection: string, record: Record)
    | Deleted(collection: string, id: string)

  /** collection -> subscribed connections; an entry never stays behind empty. */
  type Subs<C> = map<string, set<C>>

  const CAPACITY := 16

  // ----- Specification -------------------------------------------------------

  function Subscribed<C>(subs: Subs<C>, c: C, collection: string): Subs<C> {
    if collection in subs then subs[collection := subs[collection] + {c}] else subs[collection := {c}]
  }

  function Unsubscribed<C>(subs: Subs<C>, c: C, collection: string): Subs<C> {
    if collection !in subs then subs
    else if subs[collection] - {c} == {} then subs - {collection}
    else subs[collection := subs[collection] - {c}]
  }

  function Dropped<C>(subs: Subs<C>, c: C): Subs<C> {
    map collection | collection in subs && subs[collection] - {c} != {} :: subs[collection] - {c}
  }

  /** A Close in progress: the entries in `todo` have not been visited yet. */
  ghost function PartlyDropped<C>(subs: Subs<C>, c: C, todo: set<string>): Subs<C> {
    map collection | collection in subs && (collection in todo || subs[collection] - {c} != {}) ::
      if collection in todo then subs[collection] else subs[collection] - {c}
  }

  lemma DropStep<C>(subs: Subs<C>, c: C, todo: set<string>, k: string)
    requires k in todo && k in subs
    ensures Unsubscribed(PartlyDropped(subs, c, todo), c, k) == PartlyDropped(subs, c, todo - {k})
  {
  }

  function Of<C>(subs: Subs<C>, collection: string): set<C> {
    if collection in subs then subs[collection] else {}
  }

  /** Who may be told: everyone for an unowned event, else only the owner. */
  predicate MaySee(ownerId: string, subject: string) {
    ownerId == "" || subject == ownerId
  }

  /** A non-blocking send: a full queue simply misses the event. */
  function Offer(queue: seq<Event>, ev: Event): seq<Event> {
    if |queue| < CAPACITY then queue + [ev] else queue
  }

  // ----- The broker ----------------------------------------------------------

  class Conn {
    const subject: string
    var events: seq<Event>
    var closed: bool

    constructor (subject: string)
      ensures this.subject == subject && events == [] && !closed
    {
      this.subject, events, closed := subject, [], false;
    }
  }

  class Broker {
    var subs: Subs<Conn>

    /** No empty entry, and every subscriber's queue is open and within its capacity. */
    ghost predicate Valid()
      reads this, set collection, c | collection in subs && c in subs[collection] :: c
    {
      && Tight(subs)
      && forall collection, c :: collection in subs && c in subs[collection] ==> !c.closed && |c.events| <= CAPACITY
    }

    constructor ()
      ensures subs == map[] && Valid()
    {
      subs := map[];
    }

    method Subscribe(c: Conn, collection: string)
      requires Valid() && !c.closed && |c.events| <= CAPACITY
      modifies this
      ensures Valid() && subs == Subscribed(old(subs), c, collection)
    {
      if collection !in subs {
        subs := subs[collection := {}];
      }
      subs := subs[collection := subs[collection] + {c}];
      assert {} + {c} == {c};
      assert subs == Subscribed(old(subs), c, collection);
    }

    method Unsubscribe(c: Conn, collection: string)
      requires Valid()
      modifies this
      ensures Valid() && subs == Unsubscribed(old(subs), c, collection)
    {
      if collection in subs {
        var remaining := subs[collection] - {c};
        subs := subs[collection := remaining];
        if remaining == {} {
          subs := subs - {collection};
        }
      }
    }

    /** Close: off every collection, then the channel is closed. */
    method Close(c: Conn)
      requires Valid() && !c.closed
      modifies this, c
      ensures Valid() && subs == Dropped(old(subs), c)
      ensures c.closed && c.events == old(c.events)
    {
      RemoveEverywhere(c);
      c.closed := true;
      forall k, other | k in subs && other in subs[k]
        ensures !other.closed && |other.events| <= CAPACITY
      {
        assert other != c && other in old(subs)[k];
      }
    }

    /** The loop of Close, deleting each entry it leaves empty. */
    method RemoveEverywhere(c: Conn)
      modifies this
      ensures subs == Dropped(old(subs), c)
    {
      ghost var before := subs;
      var todo := subs.Keys;
      assert subs == PartlyDropped(before, c, todo);
      while todo != {}
        invariant todo <= before.Keys && subs == PartlyDropped(before, c, todo)
        decreases |todo|
      {
        var k :| k in todo;
        DropStep(before, c, todo, k);
        todo := todo - {k};
        subs := Unsubscribed(subs, c, k);
      }
      assert PartlyDropped(before, c, {}) == Dropped(before, c);
    }

    /** The locked half of publishLocal. */
    function Snapshot(ev: Event, ownerId: string): set<Conn>
      reads this
    {
      set c | c in Of(subs, ev.collection) && MaySee(ownerId, c.subject)
    }

    /** publishLocal with nothing in between: each snapshotted connection is offered the event exactly once. */
    method PublishLocal(ev: Event, ownerId: string)
      requires Valid()
      modifies Snapshot(ev, ownerId)
      ensures Valid() && subs == old(subs)
      ensures forall c :: c in old(Snapshot(ev, ownerId)) ==> c.events == Offer(old(c.events), ev) && !c.closed
    {
      var conns := Snapshot(ev, ownerId);
      ghost var all := conns;
      while conns != {}
        invariant conns <= all
        invariant forall c :: c in all ==> !c.closed && |c.events| <= CAPACITY
        invariant forall c :: c in conns ==> c.events == old(c.events)
        invariant forall c :: c in all && c !in conns ==> c.events == Offer(old(c.events), ev)
        modifies all
        decreases |conns|
      {
        var c :| c in conns;
        conns := conns - {c};
        if |c.events| < CAPACITY {
          c.events := c.events + [ev];
        }
      }
    }
  }

  // ----- Refinement: a set of pairs ------------------------------------------

  predicate Tight<C>(subs: Subs<C>) {
    forall collection :: collection in subs ==> subs[collection] != {}
  }

  function Pairs<C>(subs: Subs<C>): set<(string, C)> {
    set collection, c | collection in subs && c in subs[collection] :: (collection, c)
  }

  datatype SubOp<C> = Join(c: C, collection: string) | Leave(c: C, collection: string) | Drop(c: C)

  function Apply<C>(subs: Subs<C>, op: SubOp<C>): Subs<C> {
    match op
    case Join(c, collection) => Subscribed(subs, c, collection)
    case Leave(c, collection) => Unsubscribed(subs, c, collection)
    case Drop(c) => Dropped(subs, c)
  }

  function ApplyToPairs<C(==)>(pairs: set<(string, C)>, op: SubOp<C>): set<(string, C)> {
    match op
    case Join(c, collection) => pairs + {(collection, c)}
    case Leave(c, collection) => pairs - {(collection, c)}
    case Drop(c) => set p | p in pairs && p.1 != c
  }

  lemma PairsExactly<C>(subs: Subs<C>, collection: string, c: C)
    ensures (collection, c) in Pairs(subs) <==> c in Of(subs, collection)
  {
  }

  lemma OpRefines<C>(subs: Subs<C>, op: SubOp<C>)
    requires Tight(subs)
    ensures Tight(Apply(subs, op)) && Pairs(Apply(subs, op)) == ApplyToPairs(Pairs(subs), op)
  {
    forall collection, c: C
      ensures (collection, c) in Pairs(Apply(subs, op)) <==> (collection, c) in ApplyToPairs(Pairs(subs), op)
    {
      PairsExactly(subs, collection, c);
      PairsExactly(Apply(subs, op), collection, c);
    }
  }

  /** A tight map is determined by its pairs, so the refinement loses nothing. */
  lemma PairsDetermine<C>(a: Subs<C>, b: Subs<C>)
    requires Tight(a) && Tight(b) && Pairs(a) == Pairs(b)
    ensures a == b
  {
    forall collection
      ensures Of(a, collection) == Of(b, collection)
    {
      forall c: C
        ensures c in Of(a, collection) <==> c in Of(b, collection)
      {
        PairsExactly(a, collection, c);
        PairsExactly(b, collection, c);
      }
    }
    assert forall collection :: collection in a <==> Of(a, collection) != {};
    assert forall collection :: collection in b <==> Of(b, collection) != {};
  }

  function RunOps<C>(subs: Subs<C>, ops: seq<SubOp<C>>): Subs<C> {
    if ops == [] then subs else Apply(RunOps(subs, ops[..|ops| - 1]), ops[|ops| - 1])
  }

  function RunPairs<C(==)>(pairs: set<(string, C)>, ops: seq<SubOp<C>>): set<(string, C)> {
    if ops == [] then pairs else ApplyToPairs(RunPairs(pairs, ops[..|ops| - 1]), ops[|ops| - 1])
  }

  /** Any run of subscriptions refines the same run on a set of pairs; once no pair is left, neither is any entry. */
  lemma {:induction false} RunRefines<C>(ops: seq<SubOp<C>>)
    ensures Tight(RunOps<C>(map[], ops)) && Pairs(RunOps<C>(map[], ops)) == RunPairs<C>({}, ops)
    ensures RunPairs<C>({}, ops) == {} ==> RunOps<C>(map[], ops) == map[]
  {
    if ops != [] {
      RunRefines<C>(ops[..|ops| - 1]);
      OpRefines(RunOps<C>(map[], ops[..|ops| - 1]), ops[|ops| - 1]);
    }
    if RunPairs<C>({}, ops) == {} {
      PairsDetermine(RunOps<C>(map[], ops), map[]);
    }
  }
}
