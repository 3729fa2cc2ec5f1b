/** Runs of the transfer broker by any number of threads, with every critical section and every
    notification or control call as a step of its own. */
module TransferRuns {
  import opened Common
  import opened Transfers

  // Effects still owed by their threads; of one thread, the earlier ones come first.
  datatype Owed = Owed(thread: nat, effect: Effect)

  // `emitted` is the history of all effects in the order of the critical sections that caused them.
  datatype World = World(broker: Broker, pending: seq<Owed>, performed: seq<Effect>, emitted: seq<Effect>)

  // A thread enters a critical section, possibly from within a notification that it is delivering, or
  // performs one of the effects it owes.
  datatype Step = Enter(thread: nat, call: Call, now: int) | Perform(k: nat)

  const START := World(Broker(map[], map[]), [], [], [])

  function OwedBy(thread: nat, effects: seq<Effect>): (r: seq<Owed>)
    ensures |r| == |effects| && forall i | 0 <= i < |r| :: r[i] == Owed(thread, effects[i])
  {
    seq(|effects|, i requires 0 <= i < |effects| => Owed(thread, effects[i]))
  }

  // A thread performs its effects in order; effects of a nested call come before what is left of the outer one.
  predicate CanPerform(w: World, k: nat) {
    k < |w.pending| && forall j | 0 <= j < k :: w.pending[j].thread != w.pending[k].thread
  }

  function After(w: World, s: Step): World
    requires ItemsNamed(w.broker)
  {
    match s
    case Enter(thread, call, now) =>
      var o := Section(w.broker, call, now);
      World(o.broker, OwedBy(thread, o.effects) + w.pending, w.performed, w.emitted + o.effects)
    case Perform(k) =>
      if !CanPerform(w, k) then w
      else w.(pending := w.pending[..k] + w.pending[k + 1..], performed := w.performed + [w.pending[k].effect])
  }

  lemma AfterKeepsNames(w: World, s: Step)
    requires ItemsNamed(w.broker)
    ensures ItemsNamed(After(w, s).broker)
  {
    if s.Enter? {
      SectionKeepsNames(w.broker, s.call, s.now);
    }
    hide Section, ItemsNamed;
  }

  function Run(steps: seq<Step>): (w: World)
    ensures ItemsNamed(w.broker)
  {
    if steps == [] then START
    else
      var before := Run(steps[..|steps| - 1]);
      AfterKeepsNames(before, steps[|steps| - 1]);
      After(before, steps[|steps| - 1])
  }

  lemma RunStep(steps: seq<Step>)
    requires steps != []
    ensures Run(steps) == After(Run(steps[..|steps| - 1]), steps[|steps| - 1])
  {
  }

  // ---------- Counting ----------

  predicate Is(e: Effect, tag: Tag, id: string) {
    e.tag == tag && e.item.id == id
  }

  function Count(effects: seq<Effect>, tag: Tag, id: string): nat {
    if effects == [] then 0
    else Count(effects[..|effects| - 1], tag, id) + (if Is(effects[|effects| - 1], tag, id) then 1 else 0)
  }

  function CountOwed(pending: seq<Owed>, tag: Tag, id: string): nat {
    if pending == [] then 0
    else CountOwed(pending[..|pending| - 1], tag, id) + (if Is(pending[|pending| - 1].effect, tag, id) then 1 else 0)
  }

  predicate Ends(call: Call, id: string) {
    (call.Complete? || call.Fail? || call.Cancel?) && call.id == id
  }

  // The step is a call of Complete, Fail or Cancel for this transfer, and the call succeeds.
  predicate Wins(w: World, s: Step, id: string)
    requires ItemsNamed(w.broker)
  {
    s.Enter? && Ends(s.call, id) && Section(w.broker, s.call, s.now).ok
  }

  function Winners(steps: seq<Step>, id: string): nat {
    if steps == [] then 0
    else
      var n := |steps| - 1;
      Winners(steps[..n], id) + (if Wins(Run(steps[..n]), steps[n], id) then 1 else 0)
  }

  lemma {:induction false} CountConcat(a: seq<Effect>, b: seq<Effect>, tag: Tag, id: string)
    ensures Count(a + b, tag, id) == Count(a, tag, id) + Count(b, tag, id)
  {
    if b == [] {
      assert a + b == a;
    } else {
      CountConcat(a, b[..|b| - 1], tag, id);
      assert (a + b)[..|a + b| - 1] == a + b[..|b| - 1];
    }
  }

  lemma {:induction false} CountOwedConcat(a: seq<Owed>, b: seq<Owed>, tag: Tag, id: string)
    ensures CountOwed(a + b, tag, id) == CountOwed(a, tag, id) + CountOwed(b, tag, id)
  {
    if b == [] {
      assert a + b == a;
    } else {
      CountOwedConcat(a, b[..|b| - 1], tag, id);
      assert (a + b)[..|a + b| - 1] == a + b[..|b| - 1];
    }
  }

  lemma {:induction false} CountOwedBy(thread: nat, effects: seq<Effect>, tag: Tag, id: string)
    ensures CountOwed(OwedBy(thread, effects), tag, id) == Count(effects, tag, id)
  {
    if effects != [] {
      var n := |effects| - 1;
      CountOwedBy(thread, effects[..n], tag, id);
      assert OwedBy(thread, effects)[..n] == OwedBy(thread, effects[..n]);
    }
  }

  // Effects are neither lost nor repeated: whatever was emitted is owed or done, exactly as often.
  lemma {:induction false} EffectsConserved(steps: seq<Step>, tag: Tag, id: string)
    ensures var w := Run(steps);
      Count(w.emitted, tag, id) == Count(w.performed, tag, id) + CountOwed(w.pending, tag, id)
  {
    if steps != [] {
      hide Run, After, Count, CountOwed;
      EffectsConserved(steps[..|steps| - 1], tag, id);
      RunStep(steps);
      StepConserves(Run(steps[..|steps| - 1]), steps[|steps| - 1], tag, id);
    }
  }

  lemma StepConserves(w: World, s: Step, tag: Tag, id: string)
    requires ItemsNamed(w.broker)
    requires Count(w.emitted, tag, id) == Count(w.performed, tag, id) + CountOwed(w.pending, tag, id)
    ensures var after := After(w, s);
      Count(after.emitted, tag, id) == Count(after.performed, tag, id) + CountOwed(after.pending, tag, id)
  {
    hide Section, Count, CountOwed, ItemsNamed, Is;
    match s {
      case Enter(thread, call, now) =>
        var effects := Section(w.broker, call, now).effects;
        CountConcat(w.emitted, effects, tag, id);
        CountOwedConcat(OwedBy(thread, effects), w.pending, tag, id);
        CountOwedBy(thread, effects, tag, id);
      case Perform(k) =>
        if CanPerform(w, k) {
          CountPerformed(w, k, tag, id);
        }
    }
  }

  lemma CountPerformed(w: World, k: nat, tag: Tag, id: string)
    requires k < |w.pending|
    ensures CountOwed(w.pending[..k] + w.pending[k + 1..], tag, id)
      + Count(w.performed + [w.pending[k].effect], tag, id)
      == CountOwed(w.pending, tag, id) + Count(w.performed, tag, id)
  {
    var p := w.pending[k];
    assert w.pending == w.pending[..k] + ([p] + w.pending[k + 1..]);
    CountOwedConcat(w.pending[..k], [p] + w.pending[k + 1..], tag, id);
    CountOwedConcat([p], w.pending[k + 1..], tag, id);
    CountOwedConcat(w.pending[..k], w.pending[k + 1..], tag, id);
    CountConcat(w.performed, [p.effect], tag, id);
    assert [p][..0] == [] && [p.effect][..0] == [];
  }

  // ---------- One critical section ----------

  predicate HasEnded(b: Broker, id: string) {
    id in b.transfers && IsTerminal(b.transfers[id].state)
  }

  function One(b: bool): nat {
    if b then 1 else 0
  }

  lemma CountShort(effects: seq<Effect>, tag: Tag, id: string)
    requires |effects| <= 2
    ensures Count(effects, tag, id)
         == One(|effects| > 0 && Is(effects[0], tag, id)) + One(|effects| > 1 && Is(effects[1], tag, id))
  {
    if |effects| == 2 {
      assert effects[..1][..0] == [];
    } else if |effects| == 1 {
      assert effects[..0] == [];
    }
  }

  // What a section does to one transfer: it starts it, leaves it, changes it while it runs, or ends it.
  lemma SectionOnTransfer(b: Broker, call: Call, now: int, id: string)
    requires ItemsNamed(b)
    ensures var o := Section(b, call, now);
      && (id in b.transfers ==> id in o.broker.transfers)
      && (HasEnded(b, id) ==> o.broker.transfers[id] == b.transfers[id])
      && (HasEnded(b, id) ==> forall e | e in o.effects :: e.item.id != id)
      && (forall e | e in o.effects && e.item.id == id :: id in o.broker.transfers && e.item == o.broker.transfers[id])
      && |o.effects| <= 2
  {
  }

  lemma SectionStarts(b: Broker, call: Call, now: int, id: string)
    requires ItemsNamed(b)
    ensures var o := Section(b, call, now);
      Count(o.effects, Started, id) == One(id in o.broker.transfers) - One(id in b.transfers)
  {
    hide Count;
    CountShort(Section(b, call, now).effects, Started, id);
  }

  lemma SectionFinishes(b: Broker, call: Call, now: int, id: string)
    requires ItemsNamed(b)
    ensures var o := Section(b, call, now);
      && Count(o.effects, Finished, id) == One(HasEnded(o.broker, id)) - One(HasEnded(b, id))
      && Count(o.effects, Finished, id) == One(Ends(call, id) && o.ok)
  {
    hide Count;
    CountShort(Section(b, call, now).effects, Finished, id);
  }

  lemma SectionCancels(b: Broker, call: Call, now: int, id: string)
    requires ItemsNamed(b)
    ensures var o := Section(b, call, now);
      Count(o.effects, CancelCalled, id)
      <= One(!HasEnded(b, id) && HasEnded(o.broker, id) && o.broker.transfers[id].state == Cancelled)
  {
    hide Count;
    CountShort(Section(b, call, now).effects, CancelCalled, id);
  }

  // ---------- All interleavings ----------

  // Started once and finished at most once: exactly when the state is terminal, by the one call that won.
  lemma {:induction false} EmittedExactlyOnce(steps: seq<Step>, id: string)
    ensures var w := Run(steps);
      && Count(w.emitted, Started, id) == One(id in w.broker.transfers)
      && Count(w.emitted, Finished, id) == One(HasEnded(w.broker, id))
      && Winners(steps, id) == One(HasEnded(w.broker, id))
      && Count(w.emitted, CancelCalled, id) <= One(HasEnded(w.broker, id) && w.broker.transfers[id].state == Cancelled)
  {
    hide Section, ItemsNamed, Count;
    if steps == [] {
      NothingEmitted(id);
    } else {
      var n := |steps| - 1;
      var w := Run(steps[..n]);
      EmittedExactlyOnce(steps[..n], id);
      match steps[n] {
        case Enter(thread, call, now) =>
          SectionStarts(w.broker, call, now, id);
          SectionFinishes(w.broker, call, now, id);
          SectionCancels(w.broker, call, now, id);
          SectionOnTransfer(w.broker, call, now, id);
          var effects := Section(w.broker, call, now).effects;
          CountConcat(w.emitted, effects, Started, id);
          CountConcat(w.emitted, effects, Finished, id);
          CountConcat(w.emitted, effects, CancelCalled, id);
        case Perform(k) =>
      }
    }
  }

  lemma NothingEmitted(id: string)
    ensures forall tag :: Count([], tag, id) == 0
  {
  }

  // For every interleaving: the start and finish notifications owed and delivered number one exactly when
  // the transfer is registered and ended; at most one of Complete, Fail and Cancel succeeds; the cancel
  // control is called at most once, and only for a cancelled transfer.
  lemma TransferExactlyOnce(steps: seq<Step>, id: string)
    ensures var w := Run(steps);
      && Count(w.performed, Started, id) + CountOwed(w.pending, Started, id) == One(id in w.broker.transfers)
      && Count(w.performed, Finished, id) + CountOwed(w.pending, Finished, id) == One(HasEnded(w.broker, id))
      && Winners(steps, id) == One(HasEnded(w.broker, id))
      && Count(w.performed, CancelCalled, id) + CountOwed(w.pending, CancelCalled, id)
         <= One(HasEnded(w.broker, id) && w.broker.transfers[id].state == Cancelled)
  {
    hide Run, Count, CountOwed, Winners;
    EmittedExactlyOnce(steps, id);
    EffectsConserved(steps, Started, id);
    EffectsConserved(steps, Finished, id);
    EffectsConserved(steps, CancelCalled, id);
  }

  lemma RunMore(steps: seq<Step>, more: seq<Step>)
    requires more != []
    ensures Run(steps + more) == After(Run(steps + more[..|more| - 1]), more[|more| - 1])
  {
    assert (steps + more)[..|steps + more| - 1] == steps + more[..|more| - 1];
  }

  // Once ended, a transfer is never touched again, whatever the threads still do.
  lemma {:induction false} EndedIsFinal(steps: seq<Step>, more: seq<Step>, id: string)
    requires HasEnded(Run(steps).broker, id)
    ensures HasEnded(Run(steps + more).broker, id)
    ensures Run(steps + more).broker.transfers[id] == Run(steps).broker.transfers[id]
  {
    hide Section, ItemsNamed, Run;
    if more == [] {
      assert steps + more == steps;
    } else {
      var n := |more| - 1;
      EndedIsFinal(steps, more[..n], id);
      RunMore(steps, more);
      if more[n].Enter? {
        SectionOnTransfer(Run(steps + more[..n]).broker, more[n].call, more[n].now, id);
      }
    }
  }

  // The finish notification tells what the transfer ended as: it carries the item that stays stored.
  lemma {:induction false} FinishCarriesFinalItem(steps: seq<Step>, id: string)
    ensures var w := Run(steps);
      forall e | e in w.emitted && Is(e, Finished, id) :: HasEnded(w.broker, id) && e.item == w.broker.transfers[id]
  {
    hide Section, ItemsNamed;
    if steps != [] {
      var n := |steps| - 1;
      var w := Run(steps[..n]);
      FinishCarriesFinalItem(steps[..n], id);
      if steps[n].Enter? {
        var call, now := steps[n].call, steps[n].now;
        SectionOnTransfer(w.broker, call, now, id);
        SectionFinishes(w.broker, call, now, id);
        var o := Section(w.broker, call, now);
        forall e | e in o.effects && Is(e, Finished, id)
          ensures HasEnded(o.broker, id) && e.item == o.broker.transfers[id]
        {
          CountShort(o.effects, Finished, id);
        }
      }
    }
  }

  ghost predicate AllEmitted(w: World) {
    && (forall e | e in w.performed :: e in w.emitted)
    && (forall p | p in w.pending :: p.effect in w.emitted)
  }

  // Owed and delivered effects were all emitted.
  lemma {:induction false} OnlyEmitted(steps: seq<Step>)
    ensures AllEmitted(Run(steps))
  {
    if steps != [] {
      hide Run, After, AllEmitted;
      OnlyEmitted(steps[..|steps| - 1]);
      RunStep(steps);
      StepEmits(Run(steps[..|steps| - 1]), steps[|steps| - 1]);
    }
  }

  lemma StepEmits(w: World, s: Step)
    requires ItemsNamed(w.broker) && AllEmitted(w)
    ensures AllEmitted(After(w, s))
  {
    hide Section, ItemsNamed;
    match s {
      case Enter(thread, call, now) =>
        var effects := Section(w.broker, call, now).effects;
        OwedAreEffects(thread, effects);
        assert forall e | e in w.emitted :: e in w.emitted + effects;
        assert forall e | e in effects :: e in w.emitted + effects;
      case Perform(k) =>
        if CanPerform(w, k) {
          assert w.pending[k] in w.pending;
        }
    }
  }

  lemma OwedAreEffects(thread: nat, effects: seq<Effect>)
    ensures forall p | p in OwedBy(thread, effects) :: p.effect in effects
  {
  }

  // What an observer hears when a transfer finishes is its final state in this and in every later state.
  lemma ObserversHearFinalItem(steps: seq<Step>, more: seq<Step>, e: Effect)
    requires e in Run(steps).performed && e.tag == Finished
    ensures var later := Run(steps + more).broker.transfers;
      e.item.id in later && IsTerminal(e.item.state) && later[e.item.id] == e.item
  {
    hide Run;
    OnlyEmitted(steps);
    FinishCarriesFinalItem(steps, e.item.id);
    EndedIsFinal(steps, more, e.item.id);
  }

  // ---------- What ended transfers look like ----------

  predicate IsSettled(item: TransferItem) {
    && item.receivedBytes >= 0 && item.totalBytes >= 0 && item.speed >= 0
    && (IsTerminal(item.state) ==> item.speed == 0)
    && (item.state == Completed && item.totalBytes > 0 ==> item.receivedBytes == item.totalBytes)
    && item.state != Queued
  }

  lemma {:induction false} ItemsSettled(steps: seq<Step>)
    ensures forall id | id in Run(steps).broker.transfers :: IsSettled(Run(steps).broker.transfers[id])
  {
    if steps != [] {
      ItemsSettled(steps[..|steps| - 1]);
      if steps[|steps| - 1].Enter? {
        SectionSettles(Run(steps[..|steps| - 1]).broker, steps[|steps| - 1].call, steps[|steps| - 1].now);
      }
      hide Section, ItemsNamed, IsSettled;
    }
  }

  lemma SectionSettles(b: Broker, call: Call, now: int)
    requires ItemsNamed(b) && forall id | id in b.transfers :: IsSettled(b.transfers[id])
    ensures forall id | id in Section(b, call, now).broker.transfers ::
      IsSettled(Section(b, call, now).broker.transfers[id])
  {
  }
}
