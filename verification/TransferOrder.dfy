/** The order in which observers hear of a transfer: kept by the critical sections, and exactly when it
    is kept by the deliveries. */
module TransferOrder {
  import opened Common
  import opened Transfers
  import opened TransferRuns

  // ---------- The order of the critical sections ----------

  // Nothing about a transfer comes before its start or after its finish.
  predicate InOrder(effects: seq<Effect>) {
    forall i, j | 0 <= i < j < |effects| && effects[i].item.id == effects[j].item.id ::
      effects[i].tag != Finished && effects[j].tag != Started
  }

  lemma SectionInOrder(b: Broker, call: Call, now: int)
    requires ItemsNamed(b)
    ensures var o := Section(b, call, now);
      && InOrder(o.effects)
      && forall e | e in o.effects && e.tag == Started :: e.item.id !in b.transfers
  {
  }

  // Effects are emitted in order, and only about known transfers.
  lemma {:induction false} EmittedInOrder(steps: seq<Step>)
    ensures InOrder(Run(steps).emitted)
    ensures forall e | e in Run(steps).emitted :: e.item.id in Run(steps).broker.transfers
  {
    hide Section, ItemsNamed;
    if steps != [] {
      var n := |steps| - 1;
      var w := Run(steps[..n]);
      EmittedInOrder(steps[..n]);
      if steps[n].Enter? {
        var call, now := steps[n].call, steps[n].now;
        var o := Section(w.broker, call, now);
        SectionInOrder(w.broker, call, now);
        forall e | e in w.emitted + o.effects
          ensures e.item.id in o.broker.transfers
        {
          SectionOnTransfer(w.broker, call, now, e.item.id);
        }
        forall i, j | 0 <= i < |w.emitted| && 0 <= j < |o.effects| && w.emitted[i].item.id == o.effects[j].item.id
          ensures w.emitted[i].tag != Finished && o.effects[j].tag != Started
        {
          FinishCarriesFinalItem(steps[..n], w.emitted[i].item.id);
          SectionOnTransfer(w.broker, call, now, w.emitted[i].item.id);
        }
        JoinedInOrder(w.emitted, o.effects);
      }
    }
  }

  lemma JoinedInOrder(a: seq<Effect>, b: seq<Effect>)
    requires InOrder(a) && InOrder(b)
    requires forall i, j | 0 <= i < |a| && 0 <= j < |b| && a[i].item.id == b[j].item.id ::
               a[i].tag != Finished && b[j].tag != Started
    ensures InOrder(a + b)
  {
    var c := a + b;
    forall i, j | 0 <= i < j < |c| && c[i].item.id == c[j].item.id
      ensures c[i].tag != Finished && c[j].tag != Started
    {
      if i < |a| && j >= |a| {
        assert c[i] == a[i] && c[j] == b[j - |a|];
      } else if i >= |a| {
        assert c[i] == b[i - |a|] && c[j] == b[j - |a|];
      }
    }
  }

  // ---------- The order of one transfer ----------

  // What observers hear; calls of a control go to its owner alone.
  predicate IsNotice(e: Effect) {
    e.tag == Started || e.tag == Updated || e.tag == Finished
  }

  predicate IsAbout(e: Effect, id: string) {
    IsNotice(e) && e.item.id == id
  }

  predicate InOrderFor(effects: seq<Effect>, id: string) {
    forall i, j | 0 <= i < j < |effects| && IsAbout(effects[i], id) && IsAbout(effects[j], id) ::
      effects[i].tag != Finished && effects[j].tag != Started
  }

  // Of no transfer do observers hear anything before its start or after its finish.
  predicate NoticesInOrder(effects: seq<Effect>) {
    forall i, j | 0 <= i < j < |effects| && IsNotice(effects[i]) && IsNotice(effects[j])
                  && effects[i].item.id == effects[j].item.id ::
      effects[i].tag != Finished && effects[j].tag != Started
  }

  lemma InOrderForEach(effects: seq<Effect>)
    ensures NoticesInOrder(effects) <==> forall id :: InOrderFor(effects, id)
  {
    hide IsNotice;
    if forall id :: InOrderFor(effects, id) {
      forall i, j | 0 <= i < j < |effects| && IsNotice(effects[i]) && IsNotice(effects[j])
                    && effects[i].item.id == effects[j].item.id
        ensures effects[i].tag != Finished && effects[j].tag != Started
      {
        assert InOrderFor(effects, effects[i].item.id);
        assert IsAbout(effects[i], effects[i].item.id) && IsAbout(effects[j], effects[i].item.id);
      }
    } else {
      var id :| !InOrderFor(effects, id);
      var i, j :| 0 <= i < j < |effects| && IsAbout(effects[i], id) && IsAbout(effects[j], id)
               && !(effects[i].tag != Finished && effects[j].tag != Started);
    }
  }

  predicate Heard(w: World, tag: Tag, id: string) {
    exists i :: 0 <= i < |w.performed| && Is(w.performed[i], tag, id)
  }

  predicate HeardOf(w: World, id: string) {
    exists i :: 0 <= i < |w.performed| && IsAbout(w.performed[i], id)
  }

  predicate OwesStart(w: World, id: string) {
    exists i :: 0 <= i < |w.pending| && Is(w.pending[i].effect, Started, id)
  }

  predicate OwesAbout(w: World, id: string) {
    exists i :: 0 <= i < |w.pending| && IsAbout(w.pending[i].effect, id)
  }

  // What was heard is in order, and what is still owed cannot disturb it.
  predicate StaysInOrder(w: World, id: string) {
    && InOrderFor(w.performed, id)
    && (Heard(w, Finished, id) ==> !OwesAbout(w, id))
    && (HeardOf(w, id) ==> !OwesStart(w, id))
  }

  // The finish is delivered with no other notice about the transfer owed, and no notice but the start is
  // delivered while the start is owed.
  predicate DeliversInTurn(w: World, s: Step, id: string) {
    s.Perform? && CanPerform(w, s.k) && IsAbout(w.pending[s.k].effect, id) ==>
      && (w.pending[s.k].effect.tag == Finished ==>
            forall j | 0 <= j < |w.pending| && j != s.k :: !IsAbout(w.pending[j].effect, id))
      && (w.pending[s.k].effect.tag != Started ==> !OwesStart(w, id))
  }

  predicate DeliveriesInTurn(steps: seq<Step>, id: string) {
    steps == [] ||
    (DeliveriesInTurn(steps[..|steps| - 1], id) && DeliversInTurn(Run(steps[..|steps| - 1]), steps[|steps| - 1], id))
  }

  // What every reachable state knows of one transfer.
  ghost predicate Consistent(w: World, id: string) {
    && ItemsNamed(w.broker)
    && (Heard(w, Finished, id) ==> HasEnded(w.broker, id))
    && (HeardOf(w, id) ==> id in w.broker.transfers)
    && (forall i, j | 0 <= i < |w.pending| && 0 <= j < |w.pending| && Is(w.pending[i].effect, Started, id)
                      && Is(w.pending[j].effect, Started, id) :: i == j)
  }

  lemma RunConsistent(steps: seq<Step>, id: string)
    ensures Consistent(Run(steps), id)
  {
    hide Run, HasEnded;
    var w := Run(steps);
    OnlyEmitted(steps);
    FinishCarriesFinalItem(steps, id);
    EmittedInOrder(steps);
    TransferExactlyOnce(steps, id);
    forall i, j | 0 <= i < j < |w.pending|
      ensures !(Is(w.pending[i].effect, Started, id) && Is(w.pending[j].effect, Started, id))
    {
      if Is(w.pending[i].effect, Started, id) && Is(w.pending[j].effect, Started, id) {
        CountTwo(w.pending, Started, id, i, j);
      }
    }
    assert forall i | 0 <= i < |w.performed| :: w.performed[i] in w.performed;
  }

  lemma {:induction false} CountOne(pending: seq<Owed>, tag: Tag, id: string, i: nat)
    requires i < |pending| && Is(pending[i].effect, tag, id)
    ensures CountOwed(pending, tag, id) >= 1
  {
    var n := |pending| - 1;
    if i < n {
      CountOne(pending[..n], tag, id, i);
    }
  }

  lemma {:induction false} CountTwo(pending: seq<Owed>, tag: Tag, id: string, i: nat, j: nat)
    requires i < j < |pending| && Is(pending[i].effect, tag, id) && Is(pending[j].effect, tag, id)
    ensures CountOwed(pending, tag, id) >= 2
  {
    var n := |pending| - 1;
    if j < n {
      CountTwo(pending[..n], tag, id, i, j);
    } else {
      CountOne(pending[..n], tag, id, i);
    }
  }

  // A section adds nothing about a transfer that was heard to finish, and no start of one that was heard of.
  lemma EnterStays(w: World, s: Step, id: string)
    requires Consistent(w, id) && s.Enter?
    ensures StaysInOrder(After(w, s), id) <==> StaysInOrder(w, id)
  {
    hide Section, HasEnded, Is, IsAbout, InOrderFor;
    var o := Section(w.broker, s.call, s.now);
    var after := After(w, s);
    var added := OwedBy(s.thread, o.effects);
    SectionOnTransfer(w.broker, s.call, s.now, id);
    SectionInOrder(w.broker, s.call, s.now);
    assert after.pending == added + w.pending && after.performed == w.performed;
    assert forall i | 0 <= i < |w.pending| :: after.pending[|added| + i] == w.pending[i];
    assert forall i | 0 <= i < |added| :: after.pending[i].effect == o.effects[i];
    AddedAbout(w, s, id);
    assert OwesAbout(after, id) <==> OwesAbout(w, id) || exists i :: 0 <= i < |o.effects| && IsAbout(o.effects[i], id);
    assert OwesStart(after, id) <==>
      (OwesStart(w, id) || exists i :: 0 <= i < |o.effects| && Is(o.effects[i], Started, id));
  }

  lemma AddedAbout(w: World, s: Step, id: string)
    requires Consistent(w, id) && s.Enter?
    ensures var o := Section(w.broker, s.call, s.now);
      && (HasEnded(w.broker, id) ==> forall i | 0 <= i < |o.effects| :: !IsAbout(o.effects[i], id))
      && (id in w.broker.transfers ==> forall i | 0 <= i < |o.effects| :: !Is(o.effects[i], Started, id))
  {
    hide Section;
    var o := Section(w.broker, s.call, s.now);
    SectionOnTransfer(w.broker, s.call, s.now, id);
    SectionInOrder(w.broker, s.call, s.now);
    assert forall i | 0 <= i < |o.effects| :: o.effects[i] in o.effects;
  }

  lemma Performed(w: World, s: Step)
    requires s.Perform? && CanPerform(w, s.k) && ItemsNamed(w.broker)
    ensures var after := After(w, s);
      && after.performed == w.performed + [w.pending[s.k].effect]
      && |after.pending| == |w.pending| - 1
      && forall j | 0 <= j < |after.pending| :: after.pending[j] == w.pending[if j < s.k then j else j + 1]
  {
  }

  // What is owed and not delivered in this step is still owed after it, and nothing else is.
  lemma StillOwed(w: World, s: Step, id: string)
    requires s.Perform? && CanPerform(w, s.k) && ItemsNamed(w.broker)
    ensures OwesAbout(After(w, s), id) <==>
      exists j :: 0 <= j < |w.pending| && j != s.k && IsAbout(w.pending[j].effect, id)
    ensures OwesStart(After(w, s), id)
       <==> exists j :: 0 <= j < |w.pending| && j != s.k && Is(w.pending[j].effect, Started, id)
  {
    hide After, Is, IsAbout;
    Performed(w, s);
    var after := After(w, s);
    forall j | 0 <= j < |w.pending| && j != s.k
      ensures w.pending[j] == after.pending[if j < s.k then j else j - 1]
    {
    }
  }

  lemma HeardMore(w: World, s: Step, id: string)
    requires s.Perform? && CanPerform(w, s.k) && ItemsNamed(w.broker)
    ensures var e := w.pending[s.k].effect;
      && (Heard(After(w, s), Finished, id) <==> Heard(w, Finished, id) || Is(e, Finished, id))
      && (HeardOf(After(w, s), id) <==> HeardOf(w, id) || IsAbout(e, id))
  {
    hide After, Is, IsAbout;
    Performed(w, s);
    var after := After(w, s);
    assert forall i | 0 <= i < |w.performed| :: after.performed[i] == w.performed[i];
    assert after.performed[|w.performed|] == w.pending[s.k].effect;
  }

  lemma InOrderMore(effects: seq<Effect>, e: Effect, id: string)
    ensures InOrderFor(effects + [e], id)
       <==> InOrderFor(effects, id)
            && (IsAbout(e, id) ==> forall i | 0 <= i < |effects| && IsAbout(effects[i], id) ::
                                     effects[i].tag != Finished && e.tag != Started)
  {
    hide IsAbout;
    var more := effects + [e];
    assert forall i | 0 <= i < |effects| :: more[i] == effects[i];
    if InOrderFor(more, id) && IsAbout(e, id) {
      forall i | 0 <= i < |effects| && IsAbout(effects[i], id)
        ensures effects[i].tag != Finished && e.tag != Started
      {
        assert more[i] == effects[i] && more[|effects|] == e;
      }
    }
  }

  // A delivery keeps the order exactly when it comes in turn.
  lemma PerformStays(w: World, s: Step, id: string)
    requires Consistent(w, id) && s.Perform?
    ensures StaysInOrder(After(w, s), id) <==> StaysInOrder(w, id) && DeliversInTurn(w, s, id)
  {
    if CanPerform(w, s.k) {
      hide After, InOrderFor, CanPerform;
      Performed(w, s);
      StillOwed(w, s, id);
      HeardMore(w, s, id);
      InOrderMore(w.performed, w.pending[s.k].effect, id);
    }
  }

  lemma {:induction false} StaysExactly(steps: seq<Step>, id: string)
    ensures StaysInOrder(Run(steps), id) <==> DeliveriesInTurn(steps, id)
  {
    if steps == [] {
      NothingHeard(id);
    } else {
      hide Run, After, StaysInOrder, DeliversInTurn, Consistent;
      var n := |steps| - 1;
      StaysExactly(steps[..n], id);
      RunStep(steps);
      RunConsistent(steps[..n], id);
      if steps[n].Enter? {
        EnterStays(Run(steps[..n]), steps[n], id);
        EnterInTurn(Run(steps[..n]), steps[n], id);
      } else {
        PerformStays(Run(steps[..n]), steps[n], id);
      }
    }
  }

  lemma NothingHeard(id: string)
    ensures StaysInOrder(START, id)
  {
  }

  lemma EnterInTurn(w: World, s: Step, id: string)
    requires s.Enter?
    ensures DeliversInTurn(w, s, id)
  {
  }

  // Once everything is delivered, observers have heard of a transfer in order exactly when every delivery
  // came in turn.
  lemma HeardInOrderExactly(steps: seq<Step>, id: string)
    requires Run(steps).pending == []
    ensures InOrderFor(Run(steps).performed, id) <==> DeliveriesInTurn(steps, id)
  {
    hide Run, InOrderFor;
    StaysExactly(steps, id);
  }

  // Over all transfers: what observers heard is in order exactly when every delivery about any came in turn.
  lemma AllHeardInOrderExactly(steps: seq<Step>)
    requires Run(steps).pending == []
    ensures NoticesInOrder(Run(steps).performed) <==> forall id :: DeliveriesInTurn(steps, id)
  {
    hide NoticesInOrder, InOrderFor, After, DeliversInTurn;
    var heard := Run(steps).performed;
    InOrderForEach(heard);
    if NoticesInOrder(heard) {
      forall id
        ensures DeliveriesInTurn(steps, id)
      {
        assert InOrderFor(heard, id);
        HeardInOrderExactly(steps, id);
      }
    } else {
      var id :| !InOrderFor(heard, id);
      HeardInOrderExactly(steps, id);
    }
  }

  // ---------- What callers can do ----------

  function CallId(call: Call): string {
    if call.Register? then call.item.id else call.id
  }

  // No call about the transfer enters while notices about it are owed.
  predicate CallsDoNotOverlap(steps: seq<Step>, id: string) {
    steps == [] ||
    (CallsDoNotOverlap(steps[..|steps| - 1], id) && EntersAlone(Run(steps[..|steps| - 1]), steps[|steps| - 1], id))
  }

  predicate EntersAlone(w: World, s: Step, id: string) {
    s.Enter? && CallId(s.call) == id ==> !OwesAbout(w, id)
  }

  // What is owed about the transfer is owed by one thread, in order.
  predicate OwedInOrder(pending: seq<Owed>, id: string) {
    forall i, j | 0 <= i < j < |pending| && IsAbout(pending[i].effect, id) && IsAbout(pending[j].effect, id) ::
      && pending[i].thread == pending[j].thread
      && pending[i].effect.tag != Finished && pending[j].effect.tag != Started
  }

  lemma SectionAbout(b: Broker, call: Call, now: int)
    requires ItemsNamed(b)
    ensures forall i | 0 <= i < |Section(b, call, now).effects| ::
      Section(b, call, now).effects[i].item.id == CallId(call)
  {
  }

  lemma StepOwedInOrder(w: World, s: Step, id: string)
    requires ItemsNamed(w.broker) && OwedInOrder(w.pending, id) && EntersAlone(w, s, id)
    ensures OwedInOrder(After(w, s).pending, id)
  {
    hide Section, ItemsNamed, IsAbout;
    var after := After(w, s);
    if s.Perform? {
      if CanPerform(w, s.k) {
        hide After, CanPerform;
        Performed(w, s);
      }
    } else {
      var o := Section(w.broker, s.call, s.now);
      SectionInOrder(w.broker, s.call, s.now);
      SectionAbout(w.broker, s.call, s.now);
      var added := OwedBy(s.thread, o.effects);
      assert after.pending == added + w.pending;
      AddedInOrder(s.thread, o.effects, CallId(s.call));
      OwedConcat(added, w.pending, id, CallId(s.call));
    }
  }

  lemma OwedConcat(added: seq<Owed>, older: seq<Owed>, id: string, callId: string)
    requires forall i | 0 <= i < |added| :: added[i].effect.item.id == callId
    requires OwedInOrder(added, callId) && OwedInOrder(older, id)
    requires callId == id ==> forall i | 0 <= i < |older| :: !IsAbout(older[i].effect, id)
    ensures OwedInOrder(added + older, id)
  {
    var both := added + older;
    assert forall i | 0 <= i < |added| :: both[i] == added[i];
    assert forall j | |added| <= j < |both| :: both[j] == older[j - |added|];
  }

  lemma AddedInOrder(thread: nat, effects: seq<Effect>, id: string)
    requires InOrder(effects) && forall i | 0 <= i < |effects| :: effects[i].item.id == id
    ensures OwedInOrder(OwedBy(thread, effects), id)
    ensures forall i | 0 <= i < |effects| :: OwedBy(thread, effects)[i].effect.item.id == id
  {
  }

  lemma OwedInTurn(w: World, s: Step, id: string)
    requires OwedInOrder(w.pending, id)
    ensures DeliversInTurn(w, s, id)
  {
    if s.Perform? && CanPerform(w, s.k) && IsAbout(w.pending[s.k].effect, id) {
      forall j | 0 <= j < |w.pending| && j != s.k && IsAbout(w.pending[j].effect, id)
        ensures j > s.k
      {
      }
    }
  }

  lemma {:induction false} NoOverlapInTurn(steps: seq<Step>, id: string)
    requires CallsDoNotOverlap(steps, id)
    ensures DeliveriesInTurn(steps, id) && OwedInOrder(Run(steps).pending, id)
  {
    if steps != [] {
      hide Run, After, OwedInOrder, DeliversInTurn, EntersAlone;
      var n := |steps| - 1;
      NoOverlapInTurn(steps[..n], id);
      RunStep(steps);
      StepOwedInOrder(Run(steps[..n]), steps[n], id);
      OwedInTurn(Run(steps[..n]), steps[n], id);
    }
  }

  // When no call about a transfer enters while notices about it are owed, whatever the calls about others
  // do, observers hear of its start first and of its finish last, at every point of the run.
  lemma HeardInOrder(steps: seq<Step>, id: string)
    requires CallsDoNotOverlap(steps, id)
    ensures InOrderFor(Run(steps).performed, id)
  {
    hide Run, InOrderFor;
    NoOverlapInTurn(steps, id);
    StaysExactly(steps, id);
  }

  // ---------- Two ways to hear an update after the finish ----------

  // With several threads the promise is off: progress that was recorded before the end may be told after it.
  const FILE := TransferItem("t", "", "", "", "", 0, 0, 0, Queued, "", None, 0, 0)
  const BEGUN := Registered(FILE, 1)
  const MOVED := Progressed(BEGUN, 5, 9, 3)
  const DONE := CompletedItem(MOVED, 3)

  const RACE := [Enter(0, Register(FILE), 1), Perform(0), Enter(1, UpdateProgress("t", 5, 9, 3), 2),
                 Enter(2, Complete("t"), 3), Perform(0), Perform(0)]

  function Holding(item: TransferItem): Broker {
    Broker(map["t" := item], map[])
  }

  lemma UpdateHeardAfterFinish()
    ensures var heard := Run(RACE).performed;
      heard == [Notice(Started, BEGUN), Notice(Finished, DONE), Notice(Updated, MOVED)] && !NoticesInOrder(heard)
  {
    hide Run, After, BEGUN, MOVED, DONE;
    var r := RACE;
    assert r == r[..6] && r[..0] == [];
    RunUpTo(r, 0);
    RunUpTo(r, 1);
    RunUpTo(r, 2);
    RunUpTo(r, 3);
    RunUpTo(r, 4);
    RunUpTo(r, 5);
    RaceBegins();
    RaceMeets();
    RaceEnds();
    var heard := [Notice(Started, BEGUN), Notice(Finished, DONE), Notice(Updated, MOVED)];
    assert heard[1].tag == Finished && heard[1].item.id == heard[2].item.id by { SameTransfer(); }
  }

  lemma RunUpTo(steps: seq<Step>, k: nat)
    requires k < |steps|
    ensures Run(steps[..k + 1]) == After(Run(steps[..k]), steps[k])
    ensures Run([]) == START
  {
    hide After;
    assert steps[..k + 1][..k] == steps[..k];
    RunStep(steps[..k + 1]);
  }

  lemma SameTransfer()
    ensures BEGUN.id == MOVED.id == DONE.id == "t"
  {
  }

  lemma RaceBegins()
    ensures After(After(START, RACE[0]), RACE[1])
         == World(Holding(BEGUN), [], [Notice(Started, BEGUN)], [Notice(Started, BEGUN)])
  {
    var w := After(START, RACE[0]);
    assert w.pending == [Owed(0, Notice(Started, BEGUN))];
    assert w.broker == Holding(BEGUN);
  }

  lemma RaceMeets()
    ensures var heard := [Notice(Started, BEGUN)];
      After(After(World(Holding(BEGUN), [], heard, heard), RACE[2]), RACE[3])
      == World(Holding(DONE), [Owed(2, Notice(Finished, DONE)), Owed(1, Notice(Updated, MOVED))], heard,
               heard + [Notice(Updated, MOVED)] + [Notice(Finished, DONE)])
  {
    var heard := [Notice(Started, BEGUN)];
    var w := After(World(Holding(BEGUN), [], heard, heard), RACE[2]);
    assert w == World(Holding(MOVED), [Owed(1, Notice(Updated, MOVED))], heard, heard + [Notice(Updated, MOVED)]);
    assert After(w, RACE[3]).broker == Holding(DONE);
  }

  lemma RaceEnds()
    ensures forall emitted ::
      After(After(World(Holding(DONE), [Owed(2, Notice(Finished, DONE)), Owed(1, Notice(Updated, MOVED))],
                        [Notice(Started, BEGUN)], emitted), RACE[4]), RACE[5]).performed
      == [Notice(Started, BEGUN), Notice(Finished, DONE), Notice(Updated, MOVED)]
  {
  }

  // One thread is enough: the pause control of a transfer completes it.
  const CONTROL := TransferControl(Some(7), None, None)
  const HALTED := BEGUN.(state := Paused, speed := 0)
  const CLOSED := CompletedItem(HALTED, 5)

  const REENTRY := [Enter(0, Register(FILE), 1), Perform(0), Enter(0, SetControl("t", CONTROL), 2),
                    Enter(0, Pause("t"), 3), Perform(0), Enter(0, Complete("t"), 5), Perform(0), Perform(0)]

  lemma UpdateHeardAfterOwnFinish()
    ensures Run(REENTRY).performed
         == [Notice(Started, BEGUN), Effect(PauseCalled, HALTED, Some(7)),
             Notice(Finished, CLOSED), Notice(Updated, HALTED)]
    ensures !InOrderFor(Run(REENTRY).performed, "t")
  {
    hide Run, After, BEGUN, HALTED, CLOSED;
    var r := REENTRY;
    assert r == r[..8] && r[..0] == [];
    RunUpTo(r, 0);
    RunUpTo(r, 1);
    RunUpTo(r, 2);
    RunUpTo(r, 3);
    RunUpTo(r, 4);
    RunUpTo(r, 5);
    RunUpTo(r, 6);
    RunUpTo(r, 7);
    RaceBegins();
    PauseBegins();
    var start, called := Notice(Started, BEGUN), Effect(PauseCalled, HALTED, Some(7));
    var finish, update := Notice(Finished, CLOSED), Notice(Updated, HALTED);
    var emitted := [start] + [called, update];
    NamedHalted();
    assert [Owed(0, called)] + [Owed(0, update)] == [Owed(0, called), Owed(0, update)];
    assert [Owed(0, update)] + [] == [Owed(0, update)];
    FirstDelivered(Broker(map["t" := HALTED], map["t" := CONTROL]), 0, called, [Owed(0, update)], [start], emitted);
    ControlCompletes([Owed(0, update)], [start] + [called], emitted);
    FirstDelivered(Holding(CLOSED), 0, finish, [Owed(0, update)], [start] + [called], emitted + [finish]);
    FirstDelivered(Holding(CLOSED), 0, update, [], [start] + [called] + [finish], emitted + [finish]);
    SameTransferToo();
    var heard := Run(REENTRY).performed;
    assert heard == [start, called, finish, update];
    assert IsAbout(heard[2], "t") && IsAbout(heard[3], "t");
  }

  lemma SameTransferToo()
    ensures HALTED.id == CLOSED.id == "t"
  {
  }

  lemma PauseBegins()
    ensures var heard := [Notice(Started, BEGUN)];
      After(After(World(Holding(BEGUN), [], heard, heard), REENTRY[2]), REENTRY[3])
      == World(Broker(map["t" := HALTED], map["t" := CONTROL]),
               [Owed(0, Effect(PauseCalled, HALTED, Some(7))), Owed(0, Notice(Updated, HALTED))], heard,
               heard + [Effect(PauseCalled, HALTED, Some(7)), Notice(Updated, HALTED)])
  {
    var heard := [Notice(Started, BEGUN)];
    var w := After(World(Holding(BEGUN), [], heard, heard), REENTRY[2]);
    assert w == World(Broker(map["t" := BEGUN], map["t" := CONTROL]), [], heard, heard);
    var o := Section(w.broker, Pause("t"), 3);
    assert o.effects == [Effect(PauseCalled, HALTED, Some(7)), Notice(Updated, HALTED)];
    assert o.broker == Broker(map["t" := HALTED], map["t" := CONTROL]);
  }

  lemma NamedHalted()
    ensures ItemsNamed(Broker(map["t" := HALTED], map["t" := CONTROL])) && ItemsNamed(Holding(CLOSED))
  {
  }

  lemma FirstDelivered(b: Broker, thread: nat, e: Effect, rest: seq<Owed>, heard: seq<Effect>, emitted: seq<Effect>)
    requires ItemsNamed(b)
    ensures After(World(b, [Owed(thread, e)] + rest, heard, emitted), Perform(0))
         == World(b, rest, heard + [e], emitted)
  {
    assert ([Owed(thread, e)] + rest)[..0] + ([Owed(thread, e)] + rest)[1..] == rest;
  }

  lemma ControlCompletes(owed: seq<Owed>, heard: seq<Effect>, emitted: seq<Effect>)
    ensures After(World(Broker(map["t" := HALTED], map["t" := CONTROL]), owed, heard, emitted),
                  Enter(0, Complete("t"), 5))
         == World(Holding(CLOSED), [Owed(0, Notice(Finished, CLOSED))] + owed, heard,
                  emitted + [Notice(Finished, CLOSED)])
  {
    var o := Section(Broker(map["t" := HALTED], map["t" := CONTROL]), Complete("t"), 5);
    assert o.effects == [Notice(Finished, CLOSED)];
    assert o.broker == Holding(CLOSED);
  }
}
