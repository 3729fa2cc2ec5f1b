/** What each call of the transfer broker means for the transfer it names, over every interleaving: how a transfer
    ended, which controls are called, and what its numbers and texts are. */
module TransferLaws {
  import opened Common
  import opened Transfers
  import opened TransferRuns

  // ---------- One transfer at a time ----------

  // Everything about a transfer but its numbers, its state, its message and its end.
  predicate SameOrigin(a: TransferItem, b: TransferItem) {
    && a.id == b.id && a.url == b.url && a.suggestedFilename == b.suggestedFilename && a.targetPath == b.targetPath
    && a.mimeType == b.mimeType && a.workspaceId == b.workspaceId && a.startTimeMs == b.startTimeMs
  }

  predicate SameBytes(a: TransferItem, b: TransferItem) {
    a.receivedBytes == b.receivedBytes && a.totalBytes == b.totalBytes
  }

  // The call names this transfer.
  predicate IsFor(call: Call, id: string) {
    if call.Register? then call.item.id == id else call.id == id
  }

  // A section leaves every transfer and every control alone that its call does not name, and tells of no other;
  // a refused one does nothing.
  lemma SectionLeavesOthers(b: Broker, call: Call, now: int, id: string)
    requires ItemsNamed(b) && (!IsFor(call, id) || !Section(b, call, now).ok)
    ensures var o := Section(b, call, now);
      && (id in o.broker.transfers <==> id in b.transfers)
      && (id in b.transfers ==> o.broker.transfers[id] == b.transfers[id])
      && (id in o.broker.controls <==> id in b.controls)
      && (id in b.controls ==> o.broker.controls[id] == b.controls[id])
      && (forall e | e in o.effects :: e.item.id != id)
  {
  }

  // ---------- How a transfer ended ----------

  // The item that was `before` has been ended by this call at this time.
  predicate IsEndedBy(before: TransferItem, call: Call, now: int, after: TransferItem) {
    && SameOrigin(before, after) && after.totalBytes == before.totalBytes
    && after.endTimeMs == now && after.speed == 0
    && (call.Complete? ==> after.state == Completed)
    && (call.Fail? ==> after.state == Failed && after.errorMessage == call.message)
    && (call.Cancel? ==> after.state == Cancelled)
    && (!call.Fail? ==> after.errorMessage == before.errorMessage)
    && (!call.Complete? ==> after.receivedBytes == before.receivedBytes)
    && (call.Complete? ==>
          after.receivedBytes == if before.totalBytes > 0 then before.totalBytes else before.receivedBytes)
  }

  lemma SectionEnds(b: Broker, call: Call, now: int, id: string)
    requires ItemsNamed(b)
    ensures var o := Section(b, call, now);
      && (Ends(call, id) ==> (o.ok <==> id in b.transfers && !IsTerminal(b.transfers[id].state)))
      && (Ends(call, id) && o.ok ==> HasEnded(o.broker, id) && id !in o.broker.controls
                                     && IsEndedBy(b.transfers[id], call, now, o.broker.transfers[id]))
      && (HasEnded(o.broker, id) && !HasEnded(b, id) ==> Ends(call, id) && o.ok)
  {
  }

  // An ended transfer is what the one call that won made of it: Completed, Failed or Cancelled as that call was
  // Complete, Fail or Cancel, ended at the time it brought, with its message if it was a failure.
  lemma {:induction false} EndedAsWon(steps: seq<Step>, id: string) returns (k: nat)
    requires HasEnded(Run(steps).broker, id)
    ensures k < |steps| && Wins(Run(steps[..k]), steps[k], id)
    ensures id in Run(steps[..k]).broker.transfers
    ensures IsEndedBy(Run(steps[..k]).broker.transfers[id], steps[k].call, steps[k].now,
                      Run(steps).broker.transfers[id])
    ensures forall l: nat | l < |steps| && l != k :: !Wins(Run(steps[..l]), steps[l], id)
  {
    hide Section, ItemsNamed, IsEndedBy, Run, After;
    StartEmpty(id);
    var n := |steps| - 1;
    var w := Run(steps[..n]);
    RunStep(steps);
    if HasEnded(w.broker, id) {
      k := EndedAsWon(steps[..n], id);
      assert forall l: nat | l < n :: steps[..n][..l] == steps[..l];
      StepAfterEnd(w, steps[n], id);
    } else {
      k := n;
      StepEnds(w, steps[n], id);
      NoWinnerYet(steps[..n], id);
      assert forall l: nat | l < n :: steps[..n][..l] == steps[..l];
    }
  }

  lemma StartEmpty(id: string)
    ensures Run([]) == START && !HasEnded(START.broker, id)
  {
  }

  lemma StepAfterEnd(w: World, s: Step, id: string)
    requires ItemsNamed(w.broker) && HasEnded(w.broker, id)
    ensures !Wins(w, s, id) && id in After(w, s).broker.transfers
    ensures After(w, s).broker.transfers[id] == w.broker.transfers[id]
  {
    hide Section, ItemsNamed;
    if s.Enter? {
      SectionOnTransfer(w.broker, s.call, s.now, id);
      SectionEnds(w.broker, s.call, s.now, id);
    }
  }

  lemma StepEnds(w: World, s: Step, id: string)
    requires ItemsNamed(w.broker) && !HasEnded(w.broker, id) && HasEnded(After(w, s).broker, id)
    ensures Wins(w, s, id) && id in w.broker.transfers
    ensures IsEndedBy(w.broker.transfers[id], s.call, s.now, After(w, s).broker.transfers[id])
  {
    hide Section, ItemsNamed, IsEndedBy;
    if s.Enter? {
      SectionEnds(w.broker, s.call, s.now, id);
    }
  }

  lemma {:induction false} NoWinnerYet(steps: seq<Step>, id: string)
    requires !HasEnded(Run(steps).broker, id)
    ensures forall l: nat | l < |steps| :: !Wins(Run(steps[..l]), steps[l], id)
  {
    hide Run, HasEnded, Wins;
    forall l: nat | l < |steps|
      ensures !Wins(Run(steps[..l]), steps[l], id)
    {
      if Wins(Run(steps[..l]), steps[l], id) {
        WonEnds(steps, l, id);
      }
    }
  }

  lemma WonEnds(steps: seq<Step>, l: nat, id: string)
    requires l < |steps| && Wins(Run(steps[..l]), steps[l], id)
    ensures HasEnded(Run(steps).broker, id)
  {
    hide *;
    assert steps[..l + 1][..l] == steps[..l];
    RunStep(steps[..l + 1]);
    WinEnds(Run(steps[..l]), steps[l], id);
    assert steps[..l + 1] + steps[l + 1..] == steps;
    EndedIsFinal(steps[..l + 1], steps[l + 1..], id);
  }

  lemma WinEnds(w: World, s: Step, id: string)
    requires ItemsNamed(w.broker) && Wins(w, s, id)
    ensures HasEnded(After(w, s).broker, id)
  {
    hide Section, ItemsNamed;
    SectionEnds(w.broker, s.call, s.now, id);
  }

  // ---------- Which controls are called ----------

  // The controls of a transfer as the calls set them: the last ones that were set, unless they were forgotten or
  // the transfer has ended since.
  function ControlsSet(steps: seq<Step>, id: string): Option<TransferControl> {
    if steps == [] then None
    else
      var n := |steps| - 1;
      var before := ControlsSet(steps[..n], id);
      if !steps[n].Enter? then before
      else
        var call := steps[n].call;
        if call.SetControl? && call.id == id && id != "" && id in Run(steps[..n]).broker.transfers
        then Some(call.control)
        else if (call.ClearControl? && call.id == id) || Wins(Run(steps[..n]), steps[n], id) then None
        else before
  }

  lemma SectionControls(b: Broker, call: Call, now: int, id: string)
    requires ItemsNamed(b)
    ensures var after := Section(b, call, now).broker;
      && (call.SetControl? && call.id == id && id != "" && id in b.transfers ==>
            id in after.controls && after.controls[id] == call.control)
      && ((call.ClearControl? && call.id == id) || (Ends(call, id) && Section(b, call, now).ok) ==>
            id !in after.controls)
      && (!(call.SetControl? && call.id == id && id != "" && id in b.transfers)
          && !(call.ClearControl? && call.id == id) && !(Ends(call, id) && Section(b, call, now).ok) ==>
            && (id in after.controls <==> id in b.controls)
            && (id in b.controls ==> after.controls[id] == b.controls[id]))
  {
  }

  predicate ControlsAre(b: Broker, id: string, c: Option<TransferControl>) {
    && (id in b.controls <==> c.Some?)
    && (id in b.controls ==> b.controls[id] == c.value)
  }

  lemma {:induction false} ControlsAreAsSet(steps: seq<Step>, id: string)
    ensures ControlsAre(Run(steps).broker, id, ControlsSet(steps, id))
  {
    hide Section, ItemsNamed;
    if steps != [] {
      var n := |steps| - 1;
      ControlsAreAsSet(steps[..n], id);
      RunStep(steps);
      if steps[n].Enter? {
        SectionControls(Run(steps[..n]).broker, steps[n].call, steps[n].now, id);
      }
    }
  }

  // The effects of a section: a call of this control if it was set, then the notice.
  predicate CallsThenTells(effects: seq<Effect>, tag: Tag, callback: Option<Callback>, notice: Tag,
      item: TransferItem) {
    && |effects| == (if callback.Some? then 2 else 1)
    && (callback.Some? ==> effects[0] == Effect(tag, item, callback))
    && effects[|effects| - 1] == Effect(notice, item, None)
  }

  function PauseOf(c: Option<TransferControl>): Option<Callback> {
    if c.Some? then c.value.pause else None
  }

  function ResumeOf(c: Option<TransferControl>): Option<Callback> {
    if c.Some? then c.value.resume else None
  }

  function CancelOf(c: Option<TransferControl>): Option<Callback> {
    if c.Some? then c.value.cancel else None
  }

  // A successful pause, at any point of any run, finds the transfer in progress, leaves it Paused at speed 0 and
  // otherwise as it was, calls the pause control that was set, and then tells the observers.
  lemma PauseDoes(steps: seq<Step>, id: string, now: int)
    ensures var b := Run(steps).broker; var o := Section(b, Pause(id), now);
      && (o.ok <==> id in b.transfers && b.transfers[id].state == InProgress)
      && (o.ok ==>
            && id in o.broker.transfers
            && var before, after := b.transfers[id], o.broker.transfers[id];
               SameOrigin(before, after) && SameBytes(before, after) && after.errorMessage == before.errorMessage
               && after.endTimeMs == before.endTimeMs && after.state == Paused && after.speed == 0
               && CallsThenTells(o.effects, PauseCalled, PauseOf(ControlsSet(steps, id)), Updated, after))
  {
    hide Run, ControlsSet;
    ControlsAreAsSet(steps, id);
  }

  // A successful resume finds it Paused, leaves it InProgress, calls the resume control and tells.
  lemma ResumeDoes(steps: seq<Step>, id: string, now: int)
    ensures var b := Run(steps).broker; var o := Section(b, Resume(id), now);
      && (o.ok <==> id in b.transfers && b.transfers[id].state == Paused)
      && (o.ok ==>
            && id in o.broker.transfers
            && var before, after := b.transfers[id], o.broker.transfers[id];
               SameOrigin(before, after) && SameBytes(before, after) && after.errorMessage == before.errorMessage
               && after.endTimeMs == before.endTimeMs && after.state == InProgress && after.speed == before.speed
               && CallsThenTells(o.effects, ResumeCalled, ResumeOf(ControlsSet(steps, id)), Updated, after))
  {
    hide Run, ControlsSet;
    ControlsAreAsSet(steps, id);
  }

  // A successful cancel calls the cancel control that was set, a completion or failure calls none, and then comes
  // the finish with the ended item.
  lemma EndingTells(steps: seq<Step>, call: Call, id: string, now: int)
    requires Ends(call, id)
    ensures var o := Section(Run(steps).broker, call, now);
      o.ok ==> && id in o.broker.transfers
               && var cancel := if call.Cancel? then CancelOf(ControlsSet(steps, id)) else None;
                  CallsThenTells(o.effects, CancelCalled, cancel, Finished, o.broker.transfers[id])
  {
    hide Run, ControlsSet;
    ControlsAreAsSet(steps, id);
  }

  // ---------- Registration, progress and metadata ----------

  // Each number of a progress report comes to its own field, nothing below 0; a paused transfer stays paused.
  lemma ProgressDoes(b: Broker, id: string, received: int, total: int, speed: int, now: int)
    requires ItemsNamed(b)
    ensures var o := Section(b, UpdateProgress(id, received, total, speed), now);
      && (o.ok <==> id in b.transfers && !IsTerminal(b.transfers[id].state))
      && (o.ok ==>
            && id in o.broker.transfers
            && var before, after := b.transfers[id], o.broker.transfers[id];
               SameOrigin(before, after) && after.errorMessage == before.errorMessage
               && after.endTimeMs == before.endTimeMs
               && after.receivedBytes == (if received < 0 then 0 else received)
               && after.totalBytes == (if total < 0 then 0 else total)
               && after.speed == (if speed < 0 then 0 else speed)
               && (after.state == Paused <==> before.state == Paused)
               && (after.state == InProgress <==> before.state != Paused)
               && o.effects == [Effect(Updated, after, None)])
  {
  }

  // Metadata that is not empty comes to its own field.
  lemma MetadataDoes(b: Broker, id: string, url: string, name: string, path: string, mime: string, now: int)
    requires ItemsNamed(b)
    ensures var o := Section(b, UpdateMetadata(id, url, name, path, mime), now);
      && (o.ok <==> id in b.transfers && !IsTerminal(b.transfers[id].state))
      && (o.ok ==>
            && id in o.broker.transfers
            && var before, after := b.transfers[id], o.broker.transfers[id];
               && (url != "" ==> after.url == url) && (url == "" ==> after.url == before.url)
               && (name != "" ==> after.suggestedFilename == name)
               && (name == "" ==> after.suggestedFilename == before.suggestedFilename)
               && (path != "" ==> after.targetPath == path) && (path == "" ==> after.targetPath == before.targetPath)
               && (mime != "" ==> after.mimeType == mime) && (mime == "" ==> after.mimeType == before.mimeType)
               && SameBytes(before, after) && after.speed == before.speed && after.state == before.state
               && after.errorMessage == before.errorMessage && after.workspaceId == before.workspaceId
               && after.startTimeMs == before.startTimeMs && after.endTimeMs == before.endTimeMs
               && o.effects == [Effect(Updated, after, None)])
  {
  }

  // A new transfer is in progress, keeps the start it brings or gets the time of the call, and has no number below 0.
  lemma RegisterDoes(b: Broker, item: TransferItem, now: int)
    requires ItemsNamed(b)
    ensures var o := Section(b, Register(item), now);
      && (o.ok <==> item.id != "" && item.id !in b.transfers)
      && (o.ok ==>
            && item.id in o.broker.transfers
            && var after := o.broker.transfers[item.id];
               && after.id == item.id && after.url == item.url && after.suggestedFilename == item.suggestedFilename
               && after.targetPath == item.targetPath && after.mimeType == item.mimeType
               && after.workspaceId == item.workspaceId && after.errorMessage == item.errorMessage
               && after.endTimeMs == item.endTimeMs && after.state == InProgress
               && after.startTimeMs == (if item.startTimeMs > 0 then item.startTimeMs else now)
               && after.receivedBytes == (if item.receivedBytes < 0 then 0 else item.receivedBytes)
               && after.totalBytes == (if item.totalBytes < 0 then 0 else item.totalBytes)
               && after.speed == (if item.speed < 0 then 0 else item.speed)
               && o.effects == [Effect(Started, after, None)])
  {
  }
}
