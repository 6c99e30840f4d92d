/**
 From a write to a listener's queue: auto-REST decides who may know
 (internal/restapi), the fan-out decides who is told (internal/realtime), and
 across every process the two agree.
 */
module EndToEnd {
  import opened Broker
  import Registry
  import AccessRules
  import AccessLaws
  import Fanout

  /** Publish `id` of the fan-out run is the event of the n-th step of the auto-REST run. */
  predicate Carries(f: Fanout.State, id: nat, notice: AccessRules.Notice) {
    id < |f.pubs| && f.pubs[id].ev == notice.ev && f.pubs[id].ownerId == notice.gate
  }

  /**
   Whatever the processes, the relay, the delays and the losses: a connection that
   is offered an event belongs to a subject whose GET of that row succeeded when the
   event was made.
   */
  lemma OnlyReadersHear(
      reg: Registry.Collections, tables: AccessRules.Tables, steps: seq<AccessLaws.Step>, n: nat,
      origins: map<nat, string>, run: seq<Fanout.Step>, id: nat, c: nat)
    requires Registry.Sound(reg) && AccessLaws.OwnersNamed(reg, tables)
    requires AccessLaws.CarefulRun(reg, steps) && n < |steps| && steps[n].Serve?
    requires Fanout.Runs(Fanout.Initial(origins), run)
    requires var e := AccessRules.Handle(reg, AccessLaws.AfterAll(reg, tables, steps, n), steps[n].r);
      e.notice.Some? && Carries(Fanout.Final(Fanout.Initial(origins), run), id, e.notice.value)
    requires Fanout.Final(Fanout.Initial(origins), run).offered[(id, c)] > 0
    ensures var before, r := AccessLaws.AfterAll(reg, tables, steps, n), steps[n].r;
      var f := Fanout.Final(Fanout.Initial(origins), run);
      && r.name in reg && c in f.conns
      && AccessLaws.CanRead(reg, AccessLaws.Seen(reg, before, r), r.name, AccessLaws.Target(reg[r.name], r),
        f.conns[c].subject)
  {
    AccessLaws.EveryEventIsExact(reg, tables, steps, n);
    Fanout.FanOutIsExact(origins, run, id, c);
    hide AccessRules.Handle, AccessLaws.AfterAll, Fanout.Final, Fanout.Runs;
    hide AccessLaws.CanRead, AccessLaws.Target, AccessLaws.Seen;
  }

  /**
   A bulk erasure is no louder: a connection that is offered the event of an erased
   row, on whatever process, belongs to a subject who could GET that row just before.
   */
  lemma OnlyReadersHearOfErasure(
      reg: Registry.Collections, tables: AccessRules.Tables, order: seq<string>, subj: string, n: nat,
      notice: AccessRules.Notice, origins: map<nat, string>, run: seq<Fanout.Step>, id: nat, c: nat)
    requires AccessRules.OwnedOrder(reg, order) && n <= |order| && subj != ""
    requires notice in AccessRules.AllNotices(reg, tables, order, subj, n)
    requires Fanout.Runs(Fanout.Initial(origins), run)
    requires Carries(Fanout.Final(Fanout.Initial(origins), run), id, notice)
    requires Fanout.Final(Fanout.Initial(origins), run).offered[(id, c)] > 0
    ensures var f := Fanout.Final(Fanout.Initial(origins), run);
      && notice.ev.Deleted? && notice.ev.collection in reg && c in f.conns
      && AccessLaws.CanRead(reg, tables, notice.ev.collection, notice.ev.id, f.conns[c].subject)
  {
    Fanout.FanOutIsExact(origins, run, id, c);
    var subject := Fanout.Final(Fanout.Initial(origins), run).conns[c].subject;
    AccessLaws.ErasureTellsOnlyReaders(reg, tables, order, subj, n, notice, subject);
    hide AccessRules.AllNotices, AccessRules.OwnedOrder, Fanout.Final, Fanout.Runs, AccessLaws.CanRead;
  }

  lemma SnapshotTakesWhoMaySee(f: Fanout.State, p: nat, ev: Event, gate: string, c: nat)
    requires Fanout.Inv(f) && Fanout.Running(f, p) && c in Of(f.subs[p], ev.collection)
    ensures var next := Fanout.Next(f, Fanout.Publish(p, ev, gate));
      && c in f.conns && |f.pubs| in next.snapshots
      && (c in next.snapshots[|f.pubs|] <==> MaySee(gate, f.conns[c].subject))
  {
    assert Fanout.Local(f, p, f.subs[p]);
  }

  /**
   And every reader subscribed on the publishing process is told: the publish's
   snapshot holds each of its connections whose subject could GET the row, and
   FanOutIsExact says what becomes of each.
   */
  lemma EveryLocalReaderIsTold(
      reg: Registry.Collections, tables: AccessRules.Tables, steps: seq<AccessLaws.Step>, n: nat,
      origins: map<nat, string>, past: seq<Fanout.Step>, p: nat, c: nat)
    requires Registry.Sound(reg) && AccessLaws.OwnersNamed(reg, tables)
    requires AccessLaws.CarefulRun(reg, steps) && n < |steps| && steps[n].Serve? && steps[n].r.name in reg
    requires Fanout.Runs(Fanout.Initial(origins), past)
    requires AccessRules.Handle(reg, AccessLaws.AfterAll(reg, tables, steps, n), steps[n].r).notice.Some?
    requires var f := Fanout.Final(Fanout.Initial(origins), past);
      Fanout.Running(f, p) && c in Of(f.subs[p], steps[n].r.name)
    ensures var before, r := AccessLaws.AfterAll(reg, tables, steps, n), steps[n].r;
      var notice := AccessRules.Handle(reg, before, r).notice.value;
      var f := Fanout.Final(Fanout.Initial(origins), past);
      var next := Fanout.Next(f, Fanout.Publish(p, notice.ev, notice.gate));
      && c in f.conns && |f.pubs| in next.snapshots
      && (c in next.snapshots[|f.pubs|] <==>
            AccessLaws.CanRead(reg, AccessLaws.Seen(reg, before, r), r.name, AccessLaws.Target(reg[r.name], r),
              f.conns[c].subject))
  {
    hide AccessRules.Handle, AccessLaws.AfterAll, Fanout.Initial, Fanout.Final, Fanout.Runs, Fanout.Inv, Fanout.Next;
    hide AccessLaws.CanRead, AccessLaws.Target, AccessLaws.Seen;
    hide Registry.Sound, AccessLaws.OwnersNamed, AccessLaws.CarefulRun;
    AccessLaws.EveryEventIsExact(reg, tables, steps, n);
    var before, r := AccessLaws.AfterAll(reg, tables, steps, n), steps[n].r;
    var notice := AccessRules.Handle(reg, before, r).notice.value;
    AccessLaws.NoticeIsOfTarget(reg, before, r);
    Fanout.InitialInv(origins);
    Fanout.RunKeepsInv(Fanout.Initial(origins), past);
    SnapshotTakesWhoMaySee(Fanout.Final(Fanout.Initial(origins), past), p, notice.ev, notice.gate, c);
  }
}
