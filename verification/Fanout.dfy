/**
 Fan-out across processes (internal/realtime/broker.go, redis_relay.go) as a
 step system: any number of processes, each with its own subscriptions and
 connections, joined by a broadcast channel that may lose and reorder messages
 and that echoes them to their sender.

 A publish is a snapshot taken under the lock followed by one step per send,
 because delivery happens after the lock is released.
 */
module Fanout {
  import opened Prelude
  import opened Broker

  type ProcId = nat
  type ConnId = nat
  type PubId = nat

  datatype Pub = Pub(proc: ProcId, ev: Event, ownerId: string)

  datatype Connection = Connection(proc: ProcId, subject: string, queue: seq<Event>, closed: bool)

  datatype State = State(
    // Each process's relay id, stamped on every message it sends.
    origins: map<ProcId, string>,
    subs: map<ProcId, Subs<ConnId>>,
    conns: map<ConnId, Connection>,
    // Every call of Publish so far; a PubId is an index into it.
    pubs: seq<Pub>,
    // Publishes not handed to the channel yet.
    toRelay: set<PubId>,
    // How many messages were sent on the channel.
    relayed: nat,
    // Copies on their way to a process, and copies that have arrived.
    inFlight: set<(PubId, ProcId)>,
    arrived: set<(PubId, ProcId)>,
    // Whom each publish's own snapshot found.
    snapshots: map<PubId, set<ConnId>>,
    // Sends that a snapshot still owes, and the sends made.
    owed: set<(PubId, ConnId)>,
    offered: multiset<(PubId, ConnId)>,
    // Sends that a panic has left unmade for good.
    abandoned: set<(PubId, ConnId)>,
    // Processes that a panic has brought down.
    down: set<ProcId>)

  datatype Step =
    | Connect(c: ConnId, p: ProcId, subject: string)
    | Subscribe(c: ConnId, collection: string)
    | Unsubscribe(c: ConnId, collection: string)
    | Close(c: ConnId)
    | Publish(p: ProcId, ev: Event, ownerId: string)
    | Send(id: PubId, c: ConnId)
    | Relay(id: PubId, copies: set<ProcId>)
    | RelayFails(id: PubId)
    | Lose(id: PubId, p: ProcId)
    | Receive(id: PubId, p: ProcId)
    | Read(c: ConnId)

  function Initial(origins: map<ProcId, string>): State {
    State(origins, map p | p in origins :: map[], map[], [], {}, 0, {}, {}, map[], {}, multiset{}, {}, {})
  }

  /** publishLocal's snapshot at process p. */
  function SnapshotAt(s: State, p: ProcId, pub: Pub): set<ConnId>
    requires p in s.subs
  {
    set c | c in Of(s.subs[p], pub.ev.collection) && c in s.conns && MaySee(pub.ownerId, s.conns[c].subject)
  }

  function Owing(id: PubId, cs: set<ConnId>): set<(PubId, ConnId)> {
    set c | c in cs :: (id, c)
  }

  function Copies(id: PubId, ps: set<ProcId>): set<(PubId, ProcId)> {
    set p | p in ps :: (id, p)
  }

  predicate Known(s: State, id: PubId) {
    id < |s.pubs| && s.pubs[id].proc in s.origins
  }

  /** A message that carries the receiver's own relay id is its own publish, echoed back. */
  predicate Echo(s: State, id: PubId, p: ProcId)
    requires Known(s, id) && p in s.origins
  {
    s.origins[s.pubs[id].proc] == s.origins[p]
  }

  /** What comes off the shared channel: a stray publisher's bytes, or a relay's message. */
  datatype Payload = Malformed | Message(ev: Event, ownerId: string, originId: string)

  /** The messages among `inbox` that a relay hands to its broker, in order. */
  function Handled(inbox: seq<Payload>, originId: string): seq<Payload> {
    if inbox == [] then []
    else
      var last := inbox[|inbox| - 1];
      Handled(inbox[..|inbox| - 1], originId) +
        if last.Malformed? || last.originId == originId then [] else [last]
  }

  class RedisRelay {
    const originId: string
    // The handler calls made so far.
    var handled: seq<Payload>

    constructor (originId: string)
      ensures this.originId == originId && handled == []
    {
      this.originId, handled := originId, [];
    }

    /** The receive loop: drop what does not parse and what is our own, hand over the rest. */
    method Run(inbox: seq<Payload>)
      modifies this
      ensures handled == old(handled) + Handled(inbox, originId)
    {
      for i := 0 to |inbox|
        invariant handled == old(handled) + Handled(inbox[..i], originId)
      {
        assert inbox[..i + 1][..i] == inbox[..i];
        if inbox[i].Message? && inbox[i].originId != originId {
          handled := handled + [inbox[i]];
        }
      }
      assert inbox[..|inbox|] == inbox;
    }
  }

  function Stamped(s: State, id: PubId): Payload
    requires Known(s, id)
  {
    Message(s.pubs[id].ev, s.pubs[id].ownerId, s.origins[s.pubs[id].proc])
  }

  lemma {:induction false} HandledAcross(a: seq<Payload>, b: seq<Payload>, originId: string)
    ensures Handled(a + b, originId) == Handled(a, originId) + Handled(b, originId)
    decreases |b|
  {
    if b == [] {
      assert a + b == a;
    } else {
      var front, last := b[..|b| - 1], b[|b| - 1];
      assert (a + b)[..|a + b| - 1] == a + front;
      HandledAcross(a, front, originId);
    }
  }

  /**
   Whatever surrounds it, a payload that does not parse and a message of one's own are
   never handed over, and any other message is, once and in its place.
   */
  lemma RunHandsOver(before: seq<Payload>, payload: Payload, after: seq<Payload>, originId: string)
    ensures var rest := Handled(before, originId) + Handled(after, originId);
      var kept := Handled(before, originId) + [payload] + Handled(after, originId);
      Handled(before + [payload] + after, originId) ==
        if payload.Message? && payload.originId != originId then kept else rest
  {
    assert [payload][..0] == [];
    HandledAcross(before + [payload], after, originId);
    HandledAcross(before, [payload], originId);
  }

  /** The receive loop passes on exactly the copies that are no echo, whatever comes before and after. */
  lemma RunDropsEchoes(s: State, id: PubId, p: ProcId, before: seq<Payload>, after: seq<Payload>)
    requires Known(s, id) && p in s.origins
    ensures Handled(before + [Stamped(s, id)] + after, s.origins[p]) ==
            Handled(before, s.origins[p]) + (if Echo(s, id, p) then [] else [Stamped(s, id)])
            + Handled(after, s.origins[p])
  {
    RunHandsOver(before, Stamped(s, id), after, s.origins[p]);
  }

  predicate Running(s: State, p: ProcId) {
    p in s.subs && p in s.origins && p !in s.down
  }

  predicate Open(s: State, c: ConnId) {
    c in s.conns && !s.conns[c].closed && Running(s, s.conns[c].proc)
  }

  /** A publish is relayed only once its own process owes no more sends for it. */
  predicate MayRelay(s: State, id: PubId) {
    && id in s.toRelay && id < |s.pubs| && Running(s, s.pubs[id].proc)
    && forall owing :: owing in s.owed ==> owing.0 != id
  }

  /** The send is of a publish made on the connection's own process, not of a relayed copy. */
  predicate AtHome(s: State, id: PubId, c: ConnId) {
    id < |s.pubs| && c in s.conns && s.conns[c].proc == s.pubs[id].proc
  }

  /**
   What a send on c's closed channel leaves unmade. At home it panics in the request
   that published, which is recovered: the rest of that publish is lost. In the relay's
   own goroutine nothing recovers it, and every send of the process is lost.
   */
  function Unmade(s: State, id: PubId, c: ConnId): set<(PubId, ConnId)>
    requires c in s.conns
  {
    set o | o in s.owed && o.1 in s.conns && s.conns[o.1].proc == s.conns[c].proc && (AtHome(s, id, c) ==> o.0 == id)
  }

  /** And the publishes it leaves unrelayed. */
  function Unrelayed(s: State, id: PubId, c: ConnId): set<PubId>
    requires c in s.conns
  {
    set i | i in s.toRelay && i < |s.pubs| && s.pubs[i].proc == s.conns[c].proc && (AtHome(s, id, c) ==> i == id)
  }

  predicate Enabled(s: State, step: Step) {
    match step
    case Connect(c, p, _) => c !in s.conns && Running(s, p)
    case Subscribe(c, _) => Open(s, c)
    case Unsubscribe(c, _) => Open(s, c)
    case Close(c) => Open(s, c)
    case Publish(p, _, _) => Running(s, p)
    case Send(id, c) => (id, c) in s.owed && id < |s.pubs| && c in s.conns && Running(s, s.conns[c].proc)
    case Relay(id, copies) => MayRelay(s, id) && copies <= s.origins.Keys
    case RelayFails(id) => MayRelay(s, id)
    case Lose(id, p) => (id, p) in s.inFlight
    case Receive(id, p) => (id, p) in s.inFlight && Known(s, id) && Running(s, p)
    case Read(c) => c in s.conns && s.conns[c].queue != []
  }

  function Next(s: State, step: Step): State
    requires Enabled(s, step)
  {
    match step
    case Connect(c, p, subject) => s.(conns := s.conns[c := Connection(p, subject, [], false)])
    case Subscribe(c, collection) =>
      var p := s.conns[c].proc;
      s.(subs := s.subs[p := Subscribed(s.subs[p], c, collection)])
    case Unsubscribe(c, collection) =>
      var p := s.conns[c].proc;
      s.(subs := s.subs[p := Unsubscribed(s.subs[p], c, collection)])
    case Close(c) =>
      var p := s.conns[c].proc;
      s.(subs := s.subs[p := Dropped(s.subs[p], c)], conns := s.conns[c := s.conns[c].(closed := true)])
    case Publish(p, ev, ownerId) =>
      var id, pub := |s.pubs|, Pub(p, ev, ownerId);
      var cs := SnapshotAt(s, p, pub);
      s.(pubs := s.pubs + [pub], toRelay := s.toRelay + {id},
         snapshots := s.snapshots[id := cs], owed := s.owed + Owing(id, cs))
    case Send(id, c) =>
      var conn := s.conns[c];
      if conn.closed then
        s.(owed := s.owed - Unmade(s, id, c), abandoned := s.abandoned + Unmade(s, id, c),
           toRelay := s.toRelay - Unrelayed(s, id, c),
           down := if AtHome(s, id, c) then s.down else s.down + {conn.proc})
      else
        s.(owed := s.owed - {(id, c)}, offered := s.offered + multiset{(id, c)},
           conns := s.conns[c := conn.(queue := Offer(conn.queue, s.pubs[id].ev))])
    case Relay(id, copies) =>
      s.(toRelay := s.toRelay - {id}, relayed := s.relayed + 1, inFlight := s.inFlight + Copies(id, copies))
    case RelayFails(id) => s.(toRelay := s.toRelay - {id})
    case Lose(id, p) => s.(inFlight := s.inFlight - {(id, p)})
    case Receive(id, p) =>
      var s' := s.(inFlight := s.inFlight - {(id, p)}, arrived := s.arrived + {(id, p)});
      if Echo(s, id, p) then s' else s'.(owed := s.owed + Owing(id, SnapshotAt(s, p, s.pubs[id])))
    case Read(c) => s.(conns := s.conns[c := s.conns[c].(queue := s.conns[c].queue[1..])])
  }

  predicate Runs(s: State, steps: seq<Step>)
    decreases |steps|
  {
    steps == [] || (Enabled(s, steps[0]) && Runs(Next(s, steps[0]), steps[1..]))
  }

  function Final(s: State, steps: seq<Step>): State
    requires Runs(s, steps)
    decreases |steps|
  {
    if steps == [] then s else Final(Next(s, steps[0]), steps[1..])
  }

  // ----- The invariant -------------------------------------------------------

  /** Process p's subscribers are its own connections. */
  ghost predicate Local(s: State, p: ProcId, subs: Subs<ConnId>) {
    forall collection, c: ConnId :: c in Of(subs, collection) ==> c in s.conns && s.conns[c].proc == p
  }

  ghost predicate Sites(s: State) {
    && s.origins.Keys == s.subs.Keys
    && (forall p: ProcId :: p in s.subs ==> Local(s, p, s.subs[p]))
    && (forall c: ConnId :: c in s.conns ==> s.conns[c].proc in s.subs && |s.conns[c].queue| <= CAPACITY)
  }

  /** Every publish has a publisher and its snapshot. */
  ghost predicate Numbered(s: State) {
    && (forall id: PubId :: id < |s.pubs| ==> s.pubs[id].proc in s.subs)
    && (forall id: PubId :: id in s.snapshots <==> id < |s.pubs|)
  }

  ghost predicate WellFormed(s: State) {
    Sites(s) && Numbered(s)
  }

  /** No copy leaves before its publish is relayed, and none arrives twice. */
  ghost predicate CopiesInv(s: State) {
    && (forall id: PubId :: id in s.toRelay ==> id < |s.pubs|)
    && (forall id: PubId, p: ProcId :: (id, p) in s.inFlight ==>
          id < |s.pubs| && p in s.origins && id !in s.toRelay && (id, p) !in s.arrived)
    && (forall id: PubId, p: ProcId :: (id, p) in s.arrived ==> id < |s.pubs| && id !in s.toRelay)
  }

  ghost predicate ChannelInv(s: State) {
    CopiesInv(s) && s.relayed + |s.toRelay| <= |s.pubs|
  }

  /** A send is in play if it is owed, was made or was abandoned. */
  predicate InPlay(s: State, id: PubId, c: ConnId) {
    (id, c) in s.owed || s.offered[(id, c)] > 0 || (id, c) in s.abandoned
  }

  /** Everything in play has an addressee that may see it, reached by one of the two ways there are. */
  predicate AccountedFor(s: State, id: PubId, c: ConnId) {
    && id < |s.pubs| && id in s.snapshots && c in s.conns
    && MaySee(s.pubs[id].ownerId, s.conns[c].subject)
    && (if s.conns[c].proc == s.pubs[id].proc then c in s.snapshots[id] else (id, s.conns[c].proc) in s.arrived)
  }

  ghost predicate Accounted(s: State) {
    forall id: PubId, c: ConnId :: InPlay(s, id, c) ==> AccountedFor(s, id, c)
  }

  /** No send is two of these: owed, made, abandoned; and none is made twice. */
  predicate Once(s: State, id: PubId, c: ConnId) {
    && !((id, c) in s.owed && (id, c) in s.abandoned)
    && s.offered[(id, c)] <= (if (id, c) in s.owed || (id, c) in s.abandoned then 0 else 1)
  }

  ghost predicate AtMostOnce(s: State) {
    forall id: PubId, c: ConnId :: Once(s, id, c)
  }

  /** A publish that owes sends at home is not relayed yet; one that abandoned such a send never is. */
  predicate HomeFirst(s: State, id: PubId, c: ConnId) {
    && ((id, c) in s.owed && AtHome(s, id, c) ==> id in s.toRelay)
    && ((id, c) in s.abandoned && AtHome(s, id, c) ==> id !in s.toRelay)
  }

  ghost predicate NeverLeft(s: State, id: PubId) {
    forall p: ProcId :: (id, p) !in s.inFlight && (id, p) !in s.arrived
  }

  ghost predicate HomesFirst(s: State) {
    forall id: PubId, c: ConnId ::
      HomeFirst(s, id, c) && ((id, c) in s.abandoned && AtHome(s, id, c) ==> NeverLeft(s, id))
  }

  ghost predicate HomeInPlay(s: State) {
    forall id: PubId, c: ConnId :: id in s.snapshots && c in s.snapshots[id] ==> InPlay(s, id, c) && AtHome(s, id, c)
  }

  ghost predicate Inv(s: State) {
    WellFormed(s) && ChannelInv(s) && Accounted(s) && AtMostOnce(s) && HomeInPlay(s) && HomesFirst(s)
  }

  lemma InitialInv(origins: map<ProcId, string>)
    ensures Inv(Initial(origins))
  {
  }

  lemma LocalKept(s: State, p: ProcId, subs: Subs<ConnId>, c: ConnId, collection: string)
    requires Local(s, p, subs) && c in s.conns && s.conns[c].proc == p
    ensures Local(s, p, Subscribed(subs, c, collection))
    ensures Local(s, p, Unsubscribed(subs, c, collection))
    ensures Local(s, p, Dropped(subs, c))
  {
    forall k, d: ConnId | d in Of(Subscribed(subs, c, collection), k)
      ensures d in s.conns && s.conns[d].proc == p
    {
      assert d == c || d in Of(subs, k);
    }
    forall k, d: ConnId | d in Of(Unsubscribed(subs, c, collection), k) || d in Of(Dropped(subs, c), k)
      ensures d in s.conns && s.conns[d].proc == p
    {
      assert d in Of(subs, k);
    }
  }

  lemma LocalElsewhere(s: State, t: State)
    requires forall c: ConnId :: c in s.conns ==> c in t.conns && t.conns[c].proc == s.conns[c].proc
    ensures forall p: ProcId :: p in s.subs && Local(s, p, s.subs[p]) ==> Local(t, p, s.subs[p])
  {
  }

  lemma ResubscribedKeepsSites(s: State, step: Step)
    requires Sites(s) && Enabled(s, step) && (step.Subscribe? || step.Unsubscribe? || step.Close?)
    ensures Sites(Next(s, step))
  {
    var t := Next(s, step);
    LocalElsewhere(s, t);
    var p := s.conns[step.c].proc;
    hide Local, Subscribed, Unsubscribed, Dropped;
    LocalKept(t, p, s.subs[p], step.c, if step.Close? then "" else step.collection);
  }

  lemma KeepsSites(s: State, step: Step)
    requires Sites(s) && Enabled(s, step)
    ensures Sites(Next(s, step))
  {
    hide Local, SnapshotAt, Owing, Copies, Echo, Subscribed, Unsubscribed, Dropped, MayRelay, Unmade, Unrelayed, AtHome;
    if step.Subscribe? || step.Unsubscribe? || step.Close? {
      ResubscribedKeepsSites(s, step);
    } else if step.Connect? || step.Send? || step.Read? {
      LocalElsewhere(s, Next(s, step));
    } else {
      LocalElsewhere(s, Next(s, step));
      hide Offer;
    }
  }

  lemma KeepsNumbered(s: State, step: Step)
    requires Numbered(s) && Enabled(s, step)
    ensures Numbered(Next(s, step))
  {
    hide SnapshotAt, Owing, Copies, Subscribed, Unsubscribed, Dropped;
  }

  lemma KeepsCopies(s: State, step: Step)
    requires CopiesInv(s) && Enabled(s, step)
    ensures CopiesInv(Next(s, step))
  {
    hide SnapshotAt, Owing, Subscribed, Unsubscribed, Dropped, Offer, Echo, InPlay, Unmade, AtHome;
  }

  lemma KeepsChannel(s: State, step: Step)
    requires ChannelInv(s) && Enabled(s, step)
    ensures ChannelInv(Next(s, step))
  {
    KeepsCopies(s, step);
    hide SnapshotAt, Owing, Copies, Subscribed, Unsubscribed, Dropped, Offer, Echo;
    if step.Publish? {
      assert |s.pubs| !in s.toRelay;
    }
  }

  lemma OldStaysAccounted(s: State, step: Step, id: PubId, c: ConnId)
    requires Numbered(s) && Enabled(s, step) && AccountedFor(s, id, c)
    ensures AccountedFor(Next(s, step), id, c)
  {
    hide SnapshotAt, Owing, Copies, Subscribed, Unsubscribed, Dropped, Offer, Echo;
  }

  lemma NewIsAccounted(s: State, step: Step, id: PubId, c: ConnId)
    requires WellFormed(s) && Enabled(s, step) && !InPlay(s, id, c) && InPlay(Next(s, step), id, c)
    ensures AccountedFor(Next(s, step), id, c)
  {
    assert step.Receive? || step.Publish?;
    assert Local(s, step.p, s.subs[step.p]);
  }

  lemma KeepsAccounted(s: State, step: Step)
    requires WellFormed(s) && Accounted(s) && Enabled(s, step)
    ensures Accounted(Next(s, step))
  {
    hide AccountedFor, InPlay, Next, Enabled, Sites;
    forall id: PubId, c: ConnId | InPlay(Next(s, step), id, c)
      ensures AccountedFor(Next(s, step), id, c)
    {
      if InPlay(s, id, c) {
        OldStaysAccounted(s, step, id, c);
      } else {
        NewIsAccounted(s, step, id, c);
      }
    }
  }

  /** What a snapshot finds was not in play before, so it is new to owe it. */
  lemma SnapshotIsNew(s: State, step: Step, id: PubId, c: ConnId)
    requires Inv(s) && Enabled(s, step)
    requires (id, c) in Next(s, step).owed && (id, c) !in s.owed
    ensures !InPlay(s, id, c)
  {
    hide Unmade, Unrelayed, Offer, Subscribed, Unsubscribed, Dropped, MayRelay, HomesFirst, AtMostOnce;
    if step.Receive? {
      assert c in SnapshotAt(s, step.p, s.pubs[id]);
      assert Local(s, step.p, s.subs[step.p]);
      assert s.conns[c].proc == step.p != s.pubs[id].proc;
    } else {
      assert id == |s.pubs|;
    }
  }

  lemma OnceBeforeOnceAfter(s: State, step: Step, id: PubId, c: ConnId)
    requires Enabled(s, step) && Once(s, id, c)
    requires (id, c) in Next(s, step).owed ==> (id, c) in s.owed || !InPlay(s, id, c)
    ensures Once(Next(s, step), id, c)
  {
    hide SnapshotAt, Owing, Copies, Subscribed, Unsubscribed, Dropped, Echo, Offer, MayRelay, Unrelayed;
  }

  lemma KeepsAtMostOnce(s: State, step: Step)
    requires Inv(s) && Enabled(s, step)
    ensures AtMostOnce(Next(s, step))
  {
    hide Next, Enabled, Once, InPlay, Sites, Numbered, ChannelInv, Accounted, HomeInPlay, HomesFirst;
    forall id: PubId, c: ConnId
      ensures Once(Next(s, step), id, c)
    {
      if (id, c) in Next(s, step).owed && (id, c) !in s.owed {
        SnapshotIsNew(s, step, id, c);
      }
      OnceBeforeOnceAfter(s, step, id, c);
    }
  }

  /** A local publish and its snapshot are new together; a copy that arrives owes nothing at home. */
  lemma NewHomeIsPending(s: State, step: Step, id: PubId, c: ConnId)
    requires WellFormed(s) && Enabled(s, step)
    requires (id, c) in Next(s, step).owed && (id, c) !in s.owed && AtHome(Next(s, step), id, c)
    ensures id in Next(s, step).toRelay
  {
    if step.Receive? {
      ArrivalIsAway(s, step, id, c);
    }
  }

  lemma ArrivalIsAway(s: State, step: Step, id: PubId, c: ConnId)
    requires WellFormed(s) && Enabled(s, step) && step.Receive?
    requires (id, c) in Next(s, step).owed && (id, c) !in s.owed
    ensures !AtHome(Next(s, step), id, c)
  {
    assert Local(s, step.p, s.subs[step.p]);
    assert c in SnapshotAt(s, step.p, s.pubs[id]);
  }

  lemma UnmadeIs(s: State, id0: PubId, c0: ConnId, id: PubId, c: ConnId)
    requires c0 in s.conns
    ensures (id, c) in Unmade(s, id0, c0) <==>
      (id, c) in s.owed && c in s.conns && s.conns[c].proc == s.conns[c0].proc && (AtHome(s, id0, c0) ==> id == id0)
    ensures id in Unrelayed(s, id0, c0) <==>
      id in s.toRelay && id < |s.pubs| && s.pubs[id].proc == s.conns[c0].proc && (AtHome(s, id0, c0) ==> id == id0)
  {
  }

  lemma OldHomeStays(s: State, step: Step, id: PubId, c: ConnId)
    requires Enabled(s, step) && HomeFirst(s, id, c) && AccountedFor(s, id, c)
    requires (id, c) in Next(s, step).owed ==> (id, c) in s.owed
    requires InPlay(s, id, c)
    ensures HomeFirst(Next(s, step), id, c)
  {
    hide SnapshotAt, Owing, Copies, Subscribed, Unsubscribed, Dropped, Echo, Offer, Unmade, Unrelayed;
    if step.Send? {
      UnmadeIs(s, step.id, step.c, id, c);
    }
  }

  lemma KeepsHomeFirst(s: State, step: Step, id: PubId, c: ConnId)
    requires Inv(s) && Enabled(s, step)
    ensures HomeFirst(Next(s, step), id, c)
  {
    assert HomeFirst(s, id, c);
    if (id, c) in Next(s, step).owed && (id, c) !in s.owed {
      NewHomeStays(s, step, id, c);
    } else if InPlay(s, id, c) {
      OldHomeStays(s, step, id, c);
    }
    hide Inv, AtHome;
  }

  lemma NewHomeStays(s: State, step: Step, id: PubId, c: ConnId)
    requires Inv(s) && Enabled(s, step)
    requires (id, c) in Next(s, step).owed && (id, c) !in s.owed
    ensures HomeFirst(Next(s, step), id, c)
  {
    SnapshotIsNew(s, step, id, c);
    if AtHome(Next(s, step), id, c) {
      NewHomeIsPending(s, step, id, c);
    }
    hide Inv, AtHome;
  }

  /** What is abandoned at home has not left, and cannot leave afterwards. */
  lemma KeepsNeverLeft(s: State, step: Step, id: PubId, c: ConnId)
    requires Inv(s) && Enabled(s, step)
    requires (id, c) in Next(s, step).abandoned && AtHome(Next(s, step), id, c)
    ensures NeverLeft(Next(s, step), id)
  {
    assert HomeFirst(s, id, c) && ((id, c) in s.abandoned && AtHome(s, id, c) ==> NeverLeft(s, id));
    assert CopiesInv(s);
    AbandonedWasAtHome(s, step, id, c);
    hide Inv, Next, Enabled, CopiesInv, NeverLeft;
    if (id, c) in s.abandoned {
      StaysBehind(s, step, id);
    } else {
      LeavesNothing(s, step, id, c);
    }
  }

  lemma AbandonedWasAtHome(s: State, step: Step, id: PubId, c: ConnId)
    requires Accounted(s) && Enabled(s, step)
    requires (id, c) in Next(s, step).abandoned && AtHome(Next(s, step), id, c)
    ensures ((id, c) in s.owed || (id, c) in s.abandoned) && AtHome(s, id, c)
  {
    hide SnapshotAt, Owing, Copies, Subscribed, Unsubscribed, Dropped, Echo, Offer, MayRelay, Unrelayed;
    assert InPlay(s, id, c);
    assert AccountedFor(s, id, c);
  }

  lemma StaysBehind(s: State, step: Step, id: PubId)
    requires NeverLeft(s, id) && id !in s.toRelay && Enabled(s, step)
    ensures NeverLeft(Next(s, step), id)
  {
    hide SnapshotAt, Owing, Subscribed, Unsubscribed, Dropped, Echo, Offer, Unmade, Unrelayed;
  }

  lemma LeavesNothing(s: State, step: Step, id: PubId, c: ConnId)
    requires CopiesInv(s) && Enabled(s, step) && id in s.toRelay
    requires (id, c) in Next(s, step).abandoned && (id, c) !in s.abandoned
    ensures NeverLeft(Next(s, step), id)
  {
    hide SnapshotAt, Owing, Copies, Subscribed, Unsubscribed, Dropped, Echo, Offer, Unmade, Unrelayed;
  }

  lemma KeepsHomesFirst(s: State, step: Step)
    requires Inv(s) && Enabled(s, step)
    ensures HomesFirst(Next(s, step))
  {
    hide Inv, Next, Enabled, HomeFirst, NeverLeft, AtHome;
    forall id: PubId, c: ConnId
      ensures HomeFirst(Next(s, step), id, c)
      ensures (id, c) in Next(s, step).abandoned && AtHome(Next(s, step), id, c) ==> NeverLeft(Next(s, step), id)
    {
      KeepsHomeFirst(s, step, id, c);
      if (id, c) in Next(s, step).abandoned && AtHome(Next(s, step), id, c) {
        KeepsNeverLeft(s, step, id, c);
      }
    }
  }

  lemma InPlayStays(s: State, step: Step, id: PubId, c: ConnId)
    requires Enabled(s, step) && InPlay(s, id, c) && AtHome(s, id, c)
    ensures InPlay(Next(s, step), id, c) && AtHome(Next(s, step), id, c)
  {
    hide SnapshotAt, Owing, Copies, Subscribed, Unsubscribed, Dropped, Echo, Offer, MayRelay, Unrelayed;
  }

  /** The only new snapshot is that of a new publish, of connections of its own process. */
  lemma NewSnapshot(s: State, step: Step, id: PubId, c: ConnId)
    requires WellFormed(s) && Enabled(s, step)
    requires id in Next(s, step).snapshots && c in Next(s, step).snapshots[id]
    requires !(id in s.snapshots && c in s.snapshots[id])
    ensures InPlay(Next(s, step), id, c) && AtHome(Next(s, step), id, c)
  {
    assert step.Publish? && id == |s.pubs|;
    assert Local(s, step.p, s.subs[step.p]);
  }

  lemma KeepsHome(s: State, step: Step)
    requires WellFormed(s) && HomeInPlay(s) && Enabled(s, step)
    ensures HomeInPlay(Next(s, step))
  {
    hide Next, Enabled, InPlay, AtHome, WellFormed;
    forall id: PubId, c: ConnId | id in Next(s, step).snapshots && c in Next(s, step).snapshots[id]
      ensures InPlay(Next(s, step), id, c) && AtHome(Next(s, step), id, c)
    {
      if id in s.snapshots && c in s.snapshots[id] {
        InPlayStays(s, step, id, c);
      } else {
        NewSnapshot(s, step, id, c);
      }
    }
  }

  lemma StepKeepsInv(s: State, step: Step)
    requires Inv(s) && Enabled(s, step)
    ensures Inv(Next(s, step))
  {
    KeepsSites(s, step);
    KeepsNumbered(s, step);
    KeepsChannel(s, step);
    KeepsAccounted(s, step);
    KeepsAtMostOnce(s, step);
    KeepsHome(s, step);
    KeepsHomesFirst(s, step);
    hide Next, Enabled, Sites, Numbered, ChannelInv, Accounted, AtMostOnce, HomeInPlay, HomesFirst;
  }

  lemma {:induction false} RunKeepsInv(s: State, steps: seq<Step>)
    requires Inv(s) && Runs(s, steps)
    ensures Inv(Final(s, steps))
    decreases |steps|
  {
    hide Inv, Next, Enabled;
    if steps != [] {
      StepKeepsInv(s, steps[0]);
      RunKeepsInv(Next(s, steps[0]), steps[1..]);
    }
  }

  // ----- What holds after any run --------------------------------------------

  /**
   No duplicates, no leaks, no loops: after any run, every connection was offered
   each publish at most once and only if it may see it; every connection of the
   publisher's snapshot was offered it once, is still owed it, or had it abandoned in
   a panic, one and only one of these, and in the last case no copy has left for any
   other process; any other connection offered it sits on another process that
   received a copy; and no more messages were relayed than published.
   */
  lemma FanOutIsExact(origins: map<ProcId, string>, steps: seq<Step>, id: PubId, c: ConnId)
    requires Runs(Initial(origins), steps)
    ensures var s := Final(Initial(origins), steps);
      && s.offered[(id, c)] <= 1
      && (id in s.snapshots && c in s.snapshots[id] ==>
            && AtHome(s, id, c)
            && s.offered[(id, c)] == (if (id, c) in s.owed || (id, c) in s.abandoned then 0 else 1)
            && !((id, c) in s.owed && (id, c) in s.abandoned))
      && ((id, c) in s.abandoned && AtHome(s, id, c) ==> id !in s.toRelay && NeverLeft(s, id))
      && (s.offered[(id, c)] > 0 ==>
            && id < |s.pubs| && id in s.snapshots && c in s.conns
            && MaySee(s.pubs[id].ownerId, s.conns[c].subject)
            && (s.conns[c].proc == s.pubs[id].proc ==> c in s.snapshots[id])
            && (s.conns[c].proc != s.pubs[id].proc ==> (id, s.conns[c].proc) in s.arrived))
      && s.relayed <= |s.pubs|
      && (c in s.conns ==> |s.conns[c].queue| <= 16)
  {
    InitialInv(origins);
    RunKeepsInv(Initial(origins), steps);
    var s := Final(Initial(origins), steps);
    assert s.offered[(id, c)] > 0 ==> InPlay(s, id, c);
    assert Once(s, id, c) && HomeFirst(s, id, c);
    hide Final, Runs, Initial, Local, CopiesInv, NeverLeft, AtHome;
  }

  /**
   With distinct relay ids a received copy is ignored exactly at the process
   that published it; anywhere else every subscriber that may see it is owed it
   and was offered it never before.
   */
  lemma ArrivalReachesEveryone(origins: map<ProcId, string>, steps: seq<Step>, id: PubId, p: ProcId)
    requires forall a, b :: a in origins && b in origins && origins[a] == origins[b] ==> a == b
    requires Runs(Initial(origins), steps)
    requires Enabled(Final(Initial(origins), steps), Receive(id, p))
    ensures var s := Final(Initial(origins), steps);
      var t := Next(s, Receive(id, p));
      && (p == s.pubs[id].proc ==> t.owed == s.owed)
      && (p != s.pubs[id].proc ==> forall c: ConnId :: c in Of(s.subs[p], s.pubs[id].ev.collection) ==>
            c in t.conns && ((id, c) in t.owed <==> MaySee(s.pubs[id].ownerId, t.conns[c].subject))
              && t.offered[(id, c)] == 0)
  {
    InitialInv(origins);
    RunKeepsInv(Initial(origins), steps);
    OriginsStay(Initial(origins), steps);
    var s := Final(Initial(origins), steps);
    hide Final, Runs, Initial;
    if p != s.pubs[id].proc {
      assert Local(s, p, s.subs[p]) && !Echo(s, id, p);
      forall c: ConnId | c in Of(s.subs[p], s.pubs[id].ev.collection)
        ensures !InPlay(s, id, c)
      {
        assert InPlay(s, id, c) ==> AccountedFor(s, id, c);
      }
    }
  }

  // ----- What is lost stays lost ----------------------------------------------

  /** No copy of the publish has come to p, and none is on its way or will be sent. */
  predicate Missed(s: State, id: PubId, p: ProcId) {
    id < |s.pubs| && id !in s.toRelay && (id, p) !in s.inFlight && (id, p) !in s.arrived
  }

  lemma {:induction false} MissedForGood(s: State, steps: seq<Step>, id: PubId, p: ProcId)
    requires Missed(s, id, p) && Runs(s, steps)
    ensures Missed(Final(s, steps), id, p)
    decreases |steps|
  {
    if steps != [] {
      StepKeepsMissed(s, steps[0], id, p);
      hide Missed, Next, Enabled;
      MissedForGood(Next(s, steps[0]), steps[1..], id, p);
    }
  }

  lemma StepKeepsMissed(s: State, step: Step, id: PubId, p: ProcId)
    requires Missed(s, id, p) && Enabled(s, step)
    ensures Missed(Next(s, step), id, p)
  {
    hide SnapshotAt, Owing, Subscribed, Unsubscribed, Dropped, Echo, Offer, Unmade, Unrelayed;
  }

  /** A relaying that fails is not tried again, nor a lost copy sent again. */
  lemma LossIsFinal(s: State, step: Step, id: PubId, p: ProcId)
    requires Inv(s) && Enabled(s, step)
    requires step == RelayFails(id) || step == Lose(id, p)
    ensures Missed(Next(s, step), id, p)
  {
    assert CopiesInv(s);
    hide Inv, MayRelay;
  }

  /**
   So whoever sits on a process that a publish has been lost to, by a failed relaying
   or on the channel, is never offered it, whatever happens next.
   */
  lemma NobodyHearsTheLost(
      origins: map<ProcId, string>, past: seq<Step>, step: Step, later: seq<Step>, id: PubId, p: ProcId, c: ConnId)
    requires Runs(Initial(origins), past) && Enabled(Final(Initial(origins), past), step)
    requires step == RelayFails(id) || step == Lose(id, p)
    requires Runs(Next(Final(Initial(origins), past), step), later)
    ensures var t := Final(Next(Final(Initial(origins), past), step), later);
      c in t.conns && t.conns[c].proc == p && t.offered[(id, c)] > 0 ==> id < |t.pubs| && t.pubs[id].proc == p
  {
    hide Initial, Inv, Next, Enabled, Runs, Final, Missed;
    var s := Final(Initial(origins), past);
    InitialInv(origins);
    RunKeepsInv(Initial(origins), past);
    LossIsFinal(s, step, id, p);
    StepKeepsInv(s, step);
    RunKeepsInv(Next(s, step), later);
    MissedForGood(Next(s, step), later, id, p);
    OfferedWhereMissed(Final(Next(s, step), later), id, p, c);
  }

  lemma OfferedWhereMissed(t: State, id: PubId, p: ProcId, c: ConnId)
    requires Inv(t) && Missed(t, id, p)
    ensures id < |t.pubs|
    ensures c in t.conns && t.conns[c].proc == p && t.offered[(id, c)] > 0 ==> t.pubs[id].proc == p
  {
    if t.offered[(id, c)] > 0 {
      assert InPlay(t, id, c) && AccountedFor(t, id, c);
    }
  }

  lemma {:induction false} OriginsStay(s: State, steps: seq<Step>)
    requires Runs(s, steps)
    ensures Final(s, steps).origins == s.origins
    decreases |steps|
  {
    if steps != [] {
      OriginsStay(Next(s, steps[0]), steps[1..]);
    }
  }

  // ----- Close between a snapshot and its sends -------------------------------

  ghost predicate OwedAreOpen(s: State) {
    forall id: PubId, c: ConnId :: (id, c) in s.owed && c in s.conns ==> !s.conns[c].closed
  }

  /** No subscription of a closed connection survives its Close. */
  ghost predicate SubscribersOpen(s: State) {
    forall p: ProcId, collection, c: ConnId ::
      p in s.subs && c in Of(s.subs[p], collection) && c in s.conns ==> !s.conns[c].closed
  }

  predicate OwesNothing(s: State, c: ConnId) {
    forall owing :: owing in s.owed ==> owing.1 != c
  }

  /** Every Close comes when no snapshot still owes its connection a send. */
  predicate Gentle(s: State, steps: seq<Step>)
    requires Runs(s, steps)
    decreases |steps|
  {
    steps == [] || ((steps[0].Close? ==> OwesNothing(s, steps[0].c)) && Gentle(Next(s, steps[0]), steps[1..]))
  }

  lemma StepKeepsSubscribersOpen(s: State, step: Step, p: ProcId, collection: string, c: ConnId)
    requires Inv(s) && SubscribersOpen(s) && Enabled(s, step)
    requires p in Next(s, step).subs && c in Of(Next(s, step).subs[p], collection) && c in Next(s, step).conns
    ensures !Next(s, step).conns[c].closed
  {
    hide SnapshotAt, Owing, Copies, Echo, MayRelay, Offer, Unmade, Unrelayed;
    hide Numbered, ChannelInv, Accounted, AtMostOnce, HomeInPlay, HomesFirst;
    if step.Subscribe? && c == step.c {
    } else {
      assert c in Of(s.subs[p], collection) && Local(s, p, s.subs[p]);
    }
  }

  lemma StepKeepsOwedOpen(s: State, step: Step, id: PubId, c: ConnId)
    requires Inv(s) && SubscribersOpen(s) && OwedAreOpen(s) && Enabled(s, step)
    requires step.Close? ==> OwesNothing(s, step.c)
    requires (id, c) in Next(s, step).owed && c in Next(s, step).conns
    ensures !Next(s, step).conns[c].closed
  {
    hide Copies, Echo, MayRelay, Offer, Subscribed, Unsubscribed, Dropped, Unrelayed;
    hide Numbered, ChannelInv, AtMostOnce, HomeInPlay, HomesFirst;
    if (id, c) in s.owed {
      assert AccountedFor(s, id, c) by { assert InPlay(s, id, c); }
    }
  }

  lemma StepKeepsOpen(s: State, step: Step)
    requires Inv(s) && SubscribersOpen(s) && OwedAreOpen(s) && Enabled(s, step)
    requires step.Close? ==> OwesNothing(s, step.c)
    ensures SubscribersOpen(Next(s, step)) && OwedAreOpen(Next(s, step))
    ensures Next(s, step).down == s.down && Next(s, step).abandoned == s.abandoned
  {
    forall p: ProcId, collection, c: ConnId
      | p in Next(s, step).subs && c in Of(Next(s, step).subs[p], collection) && c in Next(s, step).conns
      ensures !Next(s, step).conns[c].closed
    {
      StepKeepsSubscribersOpen(s, step, p, collection, c);
    }
    forall id: PubId, c: ConnId | (id, c) in Next(s, step).owed && c in Next(s, step).conns
      ensures !Next(s, step).conns[c].closed
    {
      StepKeepsOwedOpen(s, step, id, c);
    }
    hide Inv, SubscribersOpen;
  }

  lemma {:induction false} GentleRunKeepsOpen(s: State, steps: seq<Step>)
    requires Inv(s) && SubscribersOpen(s) && OwedAreOpen(s) && Runs(s, steps) && Gentle(s, steps)
    ensures OwedAreOpen(Final(s, steps))
    ensures Final(s, steps).down == s.down && Final(s, steps).abandoned == s.abandoned
    decreases |steps|
  {
    hide Inv, SubscribersOpen, OwedAreOpen, Next, Enabled;
    if steps != [] {
      StepKeepsOpen(s, steps[0]);
      StepKeepsInv(s, steps[0]);
      GentleRunKeepsOpen(Next(s, steps[0]), steps[1..]);
    }
  }

  /** When every Close waits for the sends owed to its connection, no send is abandoned and no process goes down. */
  lemma GentleRunsStayUp(origins: map<ProcId, string>, steps: seq<Step>)
    requires Runs(Initial(origins), steps) && Gentle(Initial(origins), steps)
    ensures Final(Initial(origins), steps).down == {} && Final(Initial(origins), steps).abandoned == {}
  {
    InitialInv(origins);
    GentleRunKeepsOpen(Initial(origins), steps);
  }

  lemma {:induction false} RunOn(s: State, steps: seq<Step>, more: seq<Step>)
    requires Runs(s, steps) && Runs(Final(s, steps), more)
    ensures Runs(s, steps + more) && Final(s, steps + more) == Final(Final(s, steps), more)
    decreases |steps|
  {
    hide Next, Enabled;
    if steps == [] {
      assert steps + more == more;
    } else {
      assert (steps + more)[1..] == steps[1..] + more;
      RunOn(Next(s, steps[0]), steps[1..], more);
    }
  }

  lemma OneStep(s: State, step: Step)
    requires Enabled(s, step)
    ensures Runs(s, [step]) && Final(s, [step]) == Next(s, step)
  {
    hide Next, Enabled;
    assert [step][1..] == [];
    assert Runs(Next(s, step), []);
  }

  lemma TwoSteps(s: State, a: Step, b: Step)
    requires Enabled(s, a) && Enabled(Next(s, a), b)
    ensures Runs(s, [a, b]) && Final(s, [a, b]) == Next(Next(s, a), b)
  {
    hide Next, Enabled;
    assert [a, b][1..] == [b];
    OneStep(Next(s, a), b);
  }

  /** What a panic over c's send of publish `id`, in state s, has come to in state t. */
  ghost predicate Panicked(s: State, t: State, id: PubId, c: ConnId)
    requires c in s.conns
  {
    && (id, c) in t.abandoned && t.offered == s.offered
    && if AtHome(s, id, c) then
         // The request is lost, with the rest of its sends and its relaying; the process lives on.
         && t.down == s.down && id !in t.toRelay
         && (forall x: ConnId :: (id, x) in s.owed ==> (id, x) in t.abandoned && (id, x) !in t.owed)
         && (forall i: PubId, x: ConnId :: i != id ==>
               ((i, x) in t.owed <==> (i, x) in s.owed) && ((i, x) in t.abandoned <==> (i, x) in s.abandoned))
         && (forall i :: i != id ==> (i in t.toRelay <==> i in s.toRelay))
       else
         // The process is lost, with every send it owes and every publish it has yet to relay.
         && t.down == s.down + {s.conns[c].proc}
         && (forall o :: o in s.owed && o.1 in s.conns && s.conns[o.1].proc == s.conns[c].proc ==> o in t.abandoned)
         && (forall i :: i in t.toRelay && i < |s.pubs| ==> s.pubs[i].proc != s.conns[c].proc)
         && (forall o :: o in s.owed && o.1 in s.conns && s.conns[o.1].proc != s.conns[c].proc ==> o in t.owed)
         && (forall i :: i in s.toRelay && i < |s.pubs| && s.pubs[i].proc != s.conns[c].proc ==> i in t.toRelay)
  }

  lemma SendAfterClose(s: State, c: ConnId, id: PubId)
    requires Inv(s) && Enabled(s, Close(c)) && (id, c) in s.owed
    ensures Enabled(Next(s, Close(c)), Send(id, c))
    ensures Panicked(s, Next(Next(s, Close(c)), Send(id, c)), id, c)
  {
    assert InPlay(s, id, c) && AccountedFor(s, id, c);
    if AtHome(s, id, c) {
      forall x: ConnId | (id, x) in s.owed
        ensures AtHome(s, id, x)
      {
        OwedHereMeansAtHome(s, id, c, x);
      }
    }
    hide Inv, Dropped;
  }

  /** As long as a publish owes a send at home, it owes no other. */
  lemma OwedHereMeansAtHome(s: State, id: PubId, c: ConnId, x: ConnId)
    requires Inv(s) && (id, c) in s.owed && AtHome(s, id, c) && (id, x) in s.owed
    ensures AtHome(s, id, x)
  {
    assert HomeFirst(s, id, c);
    assert InPlay(s, id, x) && AccountedFor(s, id, x);
  }

  /** And any Close that does not wait lets the run go on to a panic. */
  lemma HastyCloseCanPanic(origins: map<ProcId, string>, steps: seq<Step>, c: ConnId, id: PubId)
    requires Runs(Initial(origins), steps)
    requires var s := Final(Initial(origins), steps);
      Enabled(s, Close(c)) && (id, c) in s.owed
    ensures Runs(Initial(origins), steps + [Close(c), Send(id, c)])
    ensures Panicked(Final(Initial(origins), steps), Final(Initial(origins), steps + [Close(c), Send(id, c)]), id, c)
  {
    InitialInv(origins);
    RunKeepsInv(Initial(origins), steps);
    hide Initial, Inv, Next, Runs, Final, Panicked;
    var s := Final(Initial(origins), steps);
    SendAfterClose(s, c, id);
    TwoSteps(s, Close(c), Send(id, c));
    RunOn(Initial(origins), steps, [Close(c), Send(id, c)]);
  }

  /** One process, two subscribers, one publish whose sends are still owed. */
  function TwoOwed(ev: Event): State {
    State(map[0 := "o"], map[0 := map[ev.collection := {0, 1}]],
          map[0 := Connection(0, "u", [], false), 1 := Connection(0, "u", [], false)], [Pub(0, ev, "u")],
          {0}, 0, {}, {}, map[0 := {0, 1}], {(0, 0), (0, 1)}, multiset{}, {}, {})
  }

  function TwoOwedSteps(ev: Event): seq<Step> {
    [Connect(0, 0, "u"), Connect(1, 0, "u")] + [Subscribe(0, ev.collection), Subscribe(1, ev.collection)]
    + [Publish(0, ev, "u")]
  }

  /** The same process before anyone subscribes, and before anything is published. */
  function TwoConnected(): State {
    State(map[0 := "o"], map[0 := map[]],
          map[0 := Connection(0, "u", [], false), 1 := Connection(0, "u", [], false)],
          [], {}, 0, {}, {}, map[], {}, multiset{}, {}, {})
  }

  function TwoSubscribed(ev: Event): State {
    TwoConnected().(subs := map[0 := map[ev.collection := {0, 1}]])
  }

  lemma TwoConnect()
    ensures var s, steps := Initial(map[0 := "o"]), [Connect(0, 0, "u"), Connect(1, 0, "u")];
      Runs(s, steps) && Final(s, steps) == TwoConnected()
  {
    var s := Initial(map[0 := "o"]);
    assert s.subs == map[0 := map[]];
    TwoSteps(s, Connect(0, 0, "u"), Connect(1, 0, "u"));
    hide Runs, Final;
  }

  lemma TwoSubscribe(ev: Event)
    ensures var steps := [Subscribe(0, ev.collection), Subscribe(1, ev.collection)];
      Runs(TwoConnected(), steps) && Final(TwoConnected(), steps) == TwoSubscribed(ev)
  {
    var s, k := TwoConnected(), ev.collection;
    TwoSteps(s, Subscribe(0, k), Subscribe(1, k));
    hide Runs, Final;
    assert {0} + {1} == {0, 1};
    assert Subscribed(map[], 0, k) == map[k := {0}] && Subscribed(map[k := {0}], 1, k) == map[k := {0, 1}];
    assert Next(s, Subscribe(0, k)) == s.(subs := map[0 := map[k := {0}]]);
  }

  lemma TwoPublish(ev: Event)
    ensures var steps := [Publish(0, ev, "u")];
      Runs(TwoSubscribed(ev), steps) && Final(TwoSubscribed(ev), steps) == TwoOwed(ev)
  {
    var s := TwoSubscribed(ev);
    OneStep(s, Publish(0, ev, "u"));
    hide Runs, Final;
    assert SnapshotAt(s, 0, Pub(0, ev, "u")) == {0, 1} && Owing(0, {0, 1}) == {(0, 0), (0, 1)};
  }

  lemma TwoOwedIsReached(ev: Event)
    ensures Runs(Initial(map[0 := "o"]), TwoOwedSteps(ev))
    ensures Final(Initial(map[0 := "o"]), TwoOwedSteps(ev)) == TwoOwed(ev)
  {
    TwoConnect();
    TwoSubscribe(ev);
    TwoPublish(ev);
    hide Initial, Runs, Final, TwoConnected, TwoSubscribed, TwoOwed;
    var s := Initial(map[0 := "o"]);
    var first := [Connect(0, 0, "u"), Connect(1, 0, "u")];
    var second := [Subscribe(0, ev.collection), Subscribe(1, ev.collection)];
    RunOn(s, first, second);
    RunOn(s, first + second, [Publish(0, ev, "u")]);
  }

  /**
   The gap between a snapshot and its sends is real. A Close in it loses the other
   subscriber's send and the relaying too, and the process lives on; an Unsubscribe in
   it is still followed by a delivery.
   */
  lemma GapIsReal(ev: Event)
    ensures var s := TwoOwed(ev);
      Runs(s, [Close(0), Send(0, 0)]) && Runs(s, [Unsubscribe(0, ev.collection), Send(0, 0)])
    ensures var t := Final(TwoOwed(ev), [Close(0), Send(0, 0)]);
      && t.down == {} && t.owed == {} && t.toRelay == {} && t.abandoned == {(0, 0), (0, 1)}
      && 1 in t.conns && t.conns[1] == Connection(0, "u", [], false)
    ensures var t := Final(TwoOwed(ev), [Unsubscribe(0, ev.collection), Send(0, 0)]);
      t.subs == map[0 := map[ev.collection := {1}]] && 0 in t.conns && t.conns[0].queue == [ev]
  {
    var s := TwoOwed(ev);
    TwoSteps(s, Close(0), Send(0, 0));
    TwoSteps(s, Unsubscribe(0, ev.collection), Send(0, 0));
    assert {0, 1} - {0} == {1} && Offer([], ev) == [ev];
    assert Unsubscribed(map[ev.collection := {0, 1}], 0, ev.collection) == map[ev.collection := {1}];
    var closed := Next(s, Close(0));
    assert Unmade(closed, 0, 0) == {(0, 0), (0, 1)} && Unrelayed(closed, 0, 0) == {0};
    hide Runs, Final;
  }

  /** Two processes; a copy of the one's publish has arrived at the other and is owed there. */
  function CopyOwed(ev: Event): State {
    State(map[0 := "o", 1 := "p"], map[0 := map[], 1 := map[ev.collection := {0}]],
          map[0 := Connection(1, "u", [], false)], [Pub(0, ev, "u")],
          {}, 1, {}, {(0, 1)}, map[0 := {}], {(0, 0)}, multiset{}, {}, {})
  }

  function CopyOwedSteps(ev: Event): seq<Step> {
    [Connect(0, 1, "u"), Subscribe(0, ev.collection)] + [Publish(0, ev, "u"), Relay(0, {1})] + [Receive(0, 1)]
  }

  /** The same processes, the subscriber in place and nothing published. */
  function CopyAwaited(ev: Event): State {
    State(map[0 := "o", 1 := "p"], map[0 := map[], 1 := map[ev.collection := {0}]],
          map[0 := Connection(1, "u", [], false)], [], {}, 0, {}, {}, map[], {}, multiset{}, {}, {})
  }

  lemma CopyIsAwaited(ev: Event)
    ensures var s, steps := Initial(map[0 := "o", 1 := "p"]), [Connect(0, 1, "u"), Subscribe(0, ev.collection)];
      Runs(s, steps) && Final(s, steps) == CopyAwaited(ev)
  {
    var s := Initial(map[0 := "o", 1 := "p"]);
    assert s.subs == map[0 := map[], 1 := map[]];
    TwoSteps(s, Connect(0, 1, "u"), Subscribe(0, ev.collection));
  }

  /** And the publish relayed, its copy in flight. */
  function CopyRelayed(ev: Event): State {
    CopyAwaited(ev).(pubs := [Pub(0, ev, "u")], relayed := 1, inFlight := {(0, 1)}, snapshots := map[0 := {}])
  }

  lemma CopyIsRelayed(ev: Event)
    ensures var steps := [Publish(0, ev, "u"), Relay(0, {1})];
      Runs(CopyAwaited(ev), steps) && Final(CopyAwaited(ev), steps) == CopyRelayed(ev)
  {
    var s := CopyAwaited(ev);
    assert SnapshotAt(s, 0, Pub(0, ev, "u")) == {} && Owing(0, {}) == {} && Copies(0, {1}) == {(0, 1)};
    TwoSteps(s, Publish(0, ev, "u"), Relay(0, {1}));
    hide Runs, Final;
  }

  lemma CopyArrives(ev: Event)
    ensures var steps := [Receive(0, 1)];
      Runs(CopyRelayed(ev), steps) && Final(CopyRelayed(ev), steps) == CopyOwed(ev)
  {
    var s := CopyRelayed(ev);
    assert SnapshotAt(s, 1, Pub(0, ev, "u")) == {0} && Owing(0, {0}) == {(0, 0)};
    OneStep(s, Receive(0, 1));
    hide Runs, Final;
  }

  lemma CopyOwedIsReached(ev: Event)
    ensures Runs(Initial(map[0 := "o", 1 := "p"]), CopyOwedSteps(ev))
    ensures Final(Initial(map[0 := "o", 1 := "p"]), CopyOwedSteps(ev)) == CopyOwed(ev)
  {
    CopyIsAwaited(ev);
    CopyIsRelayed(ev);
    CopyArrives(ev);
    hide Initial, Runs, Final, CopyAwaited, CopyRelayed, CopyOwed;
    var s := Initial(map[0 := "o", 1 := "p"]);
    var first, second := [Connect(0, 1, "u"), Subscribe(0, ev.collection)], [Publish(0, ev, "u"), Relay(0, {1})];
    RunOn(s, first, second);
    RunOn(s, first + second, [Receive(0, 1)]);
  }

  /** In the same gap of a relayed copy a Close brings the receiving process down. */
  lemma RelayedGapCrashes(ev: Event)
    ensures var s := CopyOwed(ev);
      && Runs(s, [Close(0), Send(0, 0)])
      && var t := Final(s, [Close(0), Send(0, 0)]); t.down == {1} && t.abandoned == {(0, 0)}
  {
    var s := CopyOwed(ev);
    TwoSteps(s, Close(0), Send(0, 0));
    var closed := Next(s, Close(0));
    assert Unmade(closed, 0, 0) == {(0, 0)};
    hide Runs, Final;
  }

  // ----- Slow readers hurt only themselves ------------------------------------

  /** Equal but for the queues of the connections in `slow`. */
  ghost predicate SameBut(s: State, t: State, slow: set<ConnId>) {
    && t == s.(conns := t.conns) && s.conns.Keys == t.conns.Keys
    && forall c: ConnId :: c in s.conns ==>
         && t.conns[c] == s.conns[c].(queue := t.conns[c].queue)
         && (c !in slow ==> t.conns[c] == s.conns[c])
  }

  predicate ReadBy(step: Step, slow: set<ConnId>) {
    step.Read? && step.c in slow
  }

  function Without(steps: seq<Step>, slow: set<ConnId>): seq<Step> {
    if steps == [] then []
    else if ReadBy(steps[0], slow) then Without(steps[1..], slow)
    else [steps[0]] + Without(steps[1..], slow)
  }

  lemma SameSnapshots(s: State, t: State, slow: set<ConnId>, p: ProcId, pub: Pub)
    requires SameBut(s, t, slow) && p in s.subs
    ensures SnapshotAt(s, p, pub) == SnapshotAt(t, p, pub)
  {
  }

  lemma PublishInBoth(s: State, t: State, slow: set<ConnId>, step: Step)
    requires SameBut(s, t, slow) && Enabled(s, step) && (step.Publish? || step.Receive?)
    ensures Enabled(t, step) && SameBut(Next(s, step), Next(t, step), slow)
  {
    SameSnapshots(s, t, slow, step.p, if step.Publish? then Pub(step.p, step.ev, step.ownerId) else s.pubs[step.id]);
    hide SnapshotAt, Owing;
  }

  lemma StepInBoth(s: State, t: State, slow: set<ConnId>, step: Step)
    requires SameBut(s, t, slow) && Enabled(s, step) && !ReadBy(step, slow)
    ensures Enabled(t, step) && SameBut(Next(s, step), Next(t, step), slow)
  {
    if step.Publish? || step.Receive? {
      PublishInBoth(s, t, slow, step);
    } else if step.Relay? || step.RelayFails? || step.Lose? {
      hide Copies;
    } else {
      OneConnInBoth(s, t, slow, step);
    }
  }

  lemma OneConnInBoth(s: State, t: State, slow: set<ConnId>, step: Step)
    requires SameBut(s, t, slow) && Enabled(s, step) && !ReadBy(step, slow)
    requires step.Connect? || step.Subscribe? || step.Unsubscribe? || step.Close? || step.Send? || step.Read?
    ensures Enabled(t, step) && SameBut(Next(s, step), Next(t, step), slow)
  {
    hide SnapshotAt, Owing, Copies, Subscribed, Unsubscribed, Dropped, Echo, MayRelay;
    if step.Send? {
      SendInBoth(s, t, slow, step);
    } else if step.Subscribe? || step.Unsubscribe? {
      hide Offer;
    } else {
      QueuesInBoth(s, t, slow, step);
    }
  }

  lemma SendInBoth(s: State, t: State, slow: set<ConnId>, step: Step)
    requires SameBut(s, t, slow) && Enabled(s, step) && step.Send?
    ensures Enabled(t, step) && SameBut(Next(s, step), Next(t, step), slow)
  {
    hide SnapshotAt, Owing, Copies, Subscribed, Unsubscribed, Dropped, Echo, MayRelay, Offer;
  }

  lemma QueuesInBoth(s: State, t: State, slow: set<ConnId>, step: Step)
    requires SameBut(s, t, slow) && Enabled(s, step) && !ReadBy(step, slow)
    requires step.Connect? || step.Close? || step.Read?
    ensures Enabled(t, step) && SameBut(Next(s, step), Next(t, step), slow)
  {
    hide SnapshotAt, Owing, Copies, Subscribed, Unsubscribed, Dropped, Echo, MayRelay, Offer;
  }

  lemma ReadInOne(s: State, t: State, slow: set<ConnId>, step: Step)
    requires SameBut(s, t, slow) && Enabled(s, step) && ReadBy(step, slow)
    ensures SameBut(Next(s, step), t, slow)
  {
  }

  /**
   A run in which some connections never read is still a run, and leaves every
   other connection, every subscription and every send exactly as it was: what
   one connection is sent does not depend on how slow any other is.
   */
  lemma {:induction false} SlowReadersAreIsolated(s: State, t: State, steps: seq<Step>, slow: set<ConnId>)
    requires SameBut(s, t, slow) && Runs(s, steps)
    ensures Runs(t, Without(steps, slow))
    ensures SameBut(Final(s, steps), Final(t, Without(steps, slow)), slow)
    decreases |steps|
  {
    if steps == [] {
    } else if ReadBy(steps[0], slow) {
      ReadInOne(s, t, slow, steps[0]);
      hide Next, Enabled, SameBut;
      SlowReadersAreIsolated(Next(s, steps[0]), t, steps[1..], slow);
    } else {
      StepInBoth(s, t, slow, steps[0]);
      hide Next, Enabled, SameBut, ReadBy;
      var rest := Without(steps[1..], slow);
      assert Without(steps, slow) == [steps[0]] + rest;
      assert ([steps[0]] + rest)[1..] == rest;
      SlowReadersAreIsolated(Next(s, steps[0]), Next(t, steps[0]), steps[1..], slow);
    }
  }

  // ----- Each queue is first in, first out ------------------------------------

  /** The events that reach c's queue: all those sent to it but what finds the queue full. */
  function Accepted(s: State, steps: seq<Step>, c: ConnId): seq<Event>
    requires Runs(s, steps)
    decreases |steps|
  {
    if steps == [] then []
    else
      var rest := Accepted(Next(s, steps[0]), steps[1..], c);
      if steps[0].Send? && steps[0].c == c && !s.conns[c].closed && |s.conns[c].queue| < 16
      then [s.pubs[steps[0].id].ev] + rest
      else rest
  }

  /** The events c's connection reads. */
  function Received(s: State, steps: seq<Step>, c: ConnId): seq<Event>
    requires Runs(s, steps)
    decreases |steps|
  {
    if steps == [] then []
    else
      var rest := Received(Next(s, steps[0]), steps[1..], c);
      if steps[0] == Read(c) then [s.conns[c].queue[0]] + rest else rest
  }

  function Waiting(s: State, c: ConnId): seq<Event> {
    if c in s.conns then s.conns[c].queue else []
  }

  lemma StepMovesQueue(s: State, step: Step, c: ConnId)
    requires Enabled(s, step)
    ensures if step == Read(c) then
        Waiting(s, c) != [] && [Waiting(s, c)[0]] + Waiting(Next(s, step), c) == Waiting(s, c)
      else if step.Send? && step.c == c && !s.conns[c].closed && |s.conns[c].queue| < 16 then
        Waiting(Next(s, step), c) == Waiting(s, c) + [s.pubs[step.id].ev]
      else Waiting(Next(s, step), c) == Waiting(s, c)
  {
    hide SnapshotAt, Owing, Copies, Subscribed, Unsubscribed, Dropped, Echo;
  }

  /**
   Nothing accepted is lost, repeated or reordered: what was read followed by what still
   waits is what was accepted.
   */
  lemma {:induction false} QueueIsFifo(s: State, steps: seq<Step>, c: ConnId)
    requires Runs(s, steps)
    ensures Received(s, steps, c) + Waiting(Final(s, steps), c) == Waiting(s, c) + Accepted(s, steps, c)
    decreases |steps|
  {
    if steps == [] {
    } else {
      var t := Next(s, steps[0]);
      QueueIsFifo(t, steps[1..], c);
      StepMovesQueue(s, steps[0], c);
      hide Next, Enabled, Waiting;
      var read, accepted := Received(t, steps[1..], c), Accepted(t, steps[1..], c);
      var left := Waiting(Final(s, steps), c);
      if steps[0] == Read(c) {
        var head := [s.conns[c].queue[0]];
        Regroup(head, read, left);
        Regroup(head, Waiting(t, c), accepted);
      } else if steps[0].Send? {
        Regroup(Waiting(s, c), [s.pubs[steps[0].id].ev], accepted);
      }
    }
  }
}
