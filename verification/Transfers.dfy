/** The transfer broker: what each of its critical sections does to the two maps it guards, and what
    the calling thread does after releasing the lock (src/core/transfers/transfer_broker.cpp). */
module Transfers {
  import opened Common

  datatype TransferState = Queued | InProgress | Paused | Completed | Failed | Cancelled

  datatype TransferItem = TransferItem(
    id: string,
    url: string,
    suggestedFilename: string,
    targetPath: string,
    mimeType: string,
    receivedBytes: int,
    totalBytes: int,
    speed: int,
    state: TransferState,
    errorMessage: string,
    workspaceId: Option<string>,
    startTimeMs: int,
    endTimeMs: int)

  // A function object of a control, known by its number.
  type Callback = nat

  datatype TransferControl =
    TransferControl(pause: Option<Callback>, resume: Option<Callback>, cancel: Option<Callback>)

  predicate IsTerminal(s: TransferState) {
    s == Completed || s == Failed || s == Cancelled
  }

  // What a thread does outside the lock: it tells the observers or calls a control. Both carry the item
  // as the critical section left it.
  datatype Tag = Started | Updated | Finished | PauseCalled | ResumeCalled | CancelCalled
  datatype Effect = Effect(tag: Tag, item: TransferItem, callback: Option<Callback>)

  datatype Broker = Broker(transfers: map<string, TransferItem>, controls: map<string, TransferControl>)

  datatype Call =
    | Register(item: TransferItem)
    | UpdateMetadata(id: string, url: string, suggestedFilename: string, targetPath: string, mimeType: string)
    | UpdateProgress(id: string, receivedBytes: int, totalBytes: int, speed: int)
    | SetControl(id: string, control: TransferControl)
    | ClearControl(id: string)
    | Complete(id: string)
    | Fail(id: string, message: string)
    | Cancel(id: string)
    | Pause(id: string)
    | Resume(id: string)

  datatype Outcome = Outcome(broker: Broker, ok: bool, effects: seq<Effect>)

  function Refused(b: Broker): Outcome {
    Outcome(b, false, [])
  }

  function Notice(tag: Tag, item: TransferItem): Effect {
    Effect(tag, item, None)
  }

  // A control that was never set is not called.
  function Called(tag: Tag, item: TransferItem, callback: Option<Callback>): seq<Effect> {
    if callback.Some? then [Effect(tag, item, callback)] else []
  }

  function ControlOf(b: Broker, id: string): TransferControl {
    if id in b.controls then b.controls[id] else TransferControl(None, None, None)
  }

  predicate IsRunning(b: Broker, id: string) {
    id in b.transfers && !IsTerminal(b.transfers[id].state)
  }

  function Registered(item: TransferItem, now: int): TransferItem {
    item.(startTimeMs := if item.startTimeMs <= 0 then now else item.startTimeMs,
          receivedBytes := Max(0, item.receivedBytes),
          totalBytes := Max(0, item.totalBytes),
          speed := Max(0, item.speed),
          state := InProgress)
  }

  function Described(item: TransferItem, url: string, name: string, path: string, mime: string): TransferItem {
    item.(url := if url != "" then url else item.url,
          suggestedFilename := if name != "" then name else item.suggestedFilename,
          targetPath := if path != "" then path else item.targetPath,
          mimeType := if mime != "" then mime else item.mimeType)
  }

  function Progressed(item: TransferItem, received: int, total: int, speed: int): TransferItem {
    item.(receivedBytes := Max(0, received), totalBytes := Max(0, total), speed := Max(0, speed),
          state := if item.state == Paused then Paused else InProgress)
  }

  function Ended(item: TransferItem, state: TransferState, now: int): TransferItem {
    item.(state := state, endTimeMs := now, speed := 0)
  }

  // Only a completed transfer counts as received in full, and only a failed one has a new message.
  function CompletedItem(item: TransferItem, now: int): TransferItem {
    var ended := Ended(item, Completed, now);
    if item.totalBytes > 0 then ended.(receivedBytes := item.totalBytes) else ended
  }

  function FailedItem(item: TransferItem, message: string, now: int): TransferItem {
    Ended(item, Failed, now).(errorMessage := message)
  }

  function Stored(b: Broker, item: TransferItem): Broker {
    b.(transfers := b.transfers[item.id := item])
  }

  // A transfer that ends loses its controls.
  function Closed(b: Broker, item: TransferItem): Broker {
    Broker(b.transfers[item.id := item], b.controls - {item.id})
  }

  // One critical section: the maps afterwards, the answer, and what the thread still has to do.
  function Section(b: Broker, call: Call, now: int): Outcome
    requires ItemsNamed(b)
  {
    match call
    case Register(item) =>
      if item.id == "" || item.id in b.transfers then Refused(b)
      else Outcome(Stored(b, Registered(item, now)), true, [Notice(Started, Registered(item, now))])
    case UpdateMetadata(id, url, name, path, mime) =>
      if !IsRunning(b, id) then Refused(b)
      else
        var item := Described(b.transfers[id], url, name, path, mime);
        Outcome(Stored(b, item), true, [Notice(Updated, item)])
    case UpdateProgress(id, received, total, speed) =>
      if !IsRunning(b, id) then Refused(b)
      else
        var item := Progressed(b.transfers[id], received, total, speed);
        Outcome(Stored(b, item), true, [Notice(Updated, item)])
    case SetControl(id, control) =>
      if id == "" || id !in b.transfers then Refused(b)
      else Outcome(b.(controls := b.controls[id := control]), true, [])
    case ClearControl(id) => Outcome(b.(controls := b.controls - {id}), true, [])
    case Complete(id) =>
      if !IsRunning(b, id) then Refused(b)
      else
        var item := CompletedItem(b.transfers[id], now);
        Outcome(Closed(b, item), true, [Notice(Finished, item)])
    case Fail(id, message) =>
      if !IsRunning(b, id) then Refused(b)
      else
        var item := FailedItem(b.transfers[id], message, now);
        Outcome(Closed(b, item), true, [Notice(Finished, item)])
    case Cancel(id) =>
      if !IsRunning(b, id) then Refused(b)
      else
        var item := Ended(b.transfers[id], Cancelled, now);
        Outcome(Closed(b, item), true, Called(CancelCalled, item, ControlOf(b, id).cancel) + [Notice(Finished, item)])
    case Pause(id) =>
      if id !in b.transfers || b.transfers[id].state != InProgress then Refused(b)
      else
        var item := b.transfers[id].(state := Paused, speed := 0);
        Outcome(Stored(b, item), true, Called(PauseCalled, item, ControlOf(b, id).pause) + [Notice(Updated, item)])
    case Resume(id) =>
      if id !in b.transfers || b.transfers[id].state != Paused then Refused(b)
      else
        var item := b.transfers[id].(state := InProgress);
        Outcome(Stored(b, item), true, Called(ResumeCalled, item, ControlOf(b, id).resume) + [Notice(Updated, item)])
  }

  // Every transfer is filed under its own id.
  ghost predicate ItemsNamed(b: Broker) {
    forall id | id in b.transfers :: b.transfers[id].id == id && id != ""
  }

  lemma SectionKeepsNames(b: Broker, call: Call, now: int)
    requires ItemsNamed(b)
    ensures ItemsNamed(Section(b, call, now).broker)
  {
  }

  class TransferBroker {
    var transfers: map<string, TransferItem>
    var controls: map<string, TransferControl>

    ghost function State(): Broker
      reads this
    {
      Broker(transfers, controls)
    }

    constructor ()
      ensures State() == Broker(map[], map[]) && ItemsNamed(State())
    {
      transfers, controls := map[], map[];
    }

    method RegisterTransfer(newItem: TransferItem, now: int) returns (ok: bool, after: seq<Effect>)
      requires ItemsNamed(State())
      modifies this`transfers
      ensures Outcome(State(), ok, after) == Section(old(State()), Register(newItem), now) && ItemsNamed(State())
    {
      if newItem.id == "" || newItem.id in transfers {
        return false, [];
      }
      var item := newItem;
      if item.startTimeMs <= 0 {
        item := item.(startTimeMs := now);
      }
      item := item.(receivedBytes := Max(0, item.receivedBytes));
      item := item.(totalBytes := Max(0, item.totalBytes));
      item := item.(speed := Max(0, item.speed));
      item := item.(state := InProgress);
      transfers := transfers[item.id := item];
      return true, [Notice(Started, item)];
    }

    method UpdateTransferMetadata(id: string, url: string, suggestedFilename: string, targetPath: string,
        mimeType: string)
      returns (ok: bool, after: seq<Effect>)
      requires ItemsNamed(State())
      modifies this`transfers
      ensures Outcome(State(), ok, after)
           == Section(old(State()), UpdateMetadata(id, url, suggestedFilename, targetPath, mimeType), 0)
      ensures ItemsNamed(State())
    {
      if id !in transfers || IsTerminal(transfers[id].state) {
        return false, [];
      }
      var item := transfers[id];
      if url != "" {
        item := item.(url := url);
      }
      if suggestedFilename != "" {
        item := item.(suggestedFilename := suggestedFilename);
      }
      if targetPath != "" {
        item := item.(targetPath := targetPath);
      }
      if mimeType != "" {
        item := item.(mimeType := mimeType);
      }
      transfers := transfers[id := item];
      return true, [Notice(Updated, item)];
    }

    method UpdateTransferProgress(id: string, receivedBytes: int, totalBytes: int, speed: int)
      returns (ok: bool, after: seq<Effect>)
      requires ItemsNamed(State())
      modifies this`transfers
      ensures Outcome(State(), ok, after)
        == Section(old(State()), UpdateProgress(id, receivedBytes, totalBytes, speed), 0)
      ensures ItemsNamed(State())
    {
      if id !in transfers || IsTerminal(transfers[id].state) {
        return false, [];
      }
      var item := transfers[id].(receivedBytes := Max(0, receivedBytes), totalBytes := Max(0, totalBytes),
        speed := Max(0, speed));
      if item.state != Paused {
        item := item.(state := InProgress);
      }
      transfers := transfers[id := item];
      return true, [Notice(Updated, item)];
    }

    method SetTransferControl(id: string, control: TransferControl)
      requires ItemsNamed(State())
      modifies this`controls
      ensures State() == Section(old(State()), SetControl(id, control), 0).broker
    {
      if id == "" {
        return;
      }
      if id in transfers {
        controls := controls[id := control];
      }
    }

    method ClearTransferControl(id: string)
      requires ItemsNamed(State())
      modifies this`controls
      ensures State() == Section(old(State()), ClearControl(id), 0).broker
    {
      controls := controls - {id};
    }

    method CompleteTransfer(id: string, now: int) returns (ok: bool, after: seq<Effect>)
      requires ItemsNamed(State())
      modifies this
      ensures Outcome(State(), ok, after) == Section(old(State()), Complete(id), now) && ItemsNamed(State())
    {
      if id !in transfers || IsTerminal(transfers[id].state) {
        return false, [];
      }
      var item := transfers[id].(state := Completed, endTimeMs := now, speed := 0);
      if item.totalBytes > 0 {
        item := item.(receivedBytes := item.totalBytes);
      }
      transfers := transfers[id := item];
      controls := controls - {id};
      return true, [Notice(Finished, item)];
    }

    method FailTransfer(id: string, message: string, now: int) returns (ok: bool, after: seq<Effect>)
      requires ItemsNamed(State())
      modifies this
      ensures Outcome(State(), ok, after) == Section(old(State()), Fail(id, message), now) && ItemsNamed(State())
    {
      if id !in transfers || IsTerminal(transfers[id].state) {
        return false, [];
      }
      var item := transfers[id].(state := Failed, errorMessage := message, endTimeMs := now, speed := 0);
      transfers := transfers[id := item];
      controls := controls - {id};
      return true, [Notice(Finished, item)];
    }

    method CancelTransfer(id: string, now: int) returns (ok: bool, after: seq<Effect>)
      requires ItemsNamed(State())
      modifies this
      ensures Outcome(State(), ok, after) == Section(old(State()), Cancel(id), now) && ItemsNamed(State())
    {
      if id !in transfers || IsTerminal(transfers[id].state) {
        return false, [];
      }
      var cancel := None;
      if id in controls {
        cancel := controls[id].cancel;
      }
      var item := transfers[id].(state := Cancelled, endTimeMs := now, speed := 0);
      transfers := transfers[id := item];
      controls := controls - {id};
      ok, after := true, [];
      if cancel.Some? {
        after := after + [Effect(CancelCalled, item, cancel)];
      }
      after := after + [Notice(Finished, item)];
    }

    method PauseTransfer(id: string) returns (ok: bool, after: seq<Effect>)
      requires ItemsNamed(State())
      modifies this`transfers
      ensures Outcome(State(), ok, after) == Section(old(State()), Pause(id), 0) && ItemsNamed(State())
    {
      if id !in transfers || transfers[id].state != InProgress {
        return false, [];
      }
      var pause := None;
      if id in controls {
        pause := controls[id].pause;
      }
      var item := transfers[id].(state := Paused, speed := 0);
      transfers := transfers[id := item];
      ok, after := true, [];
      if pause.Some? {
        after := after + [Effect(PauseCalled, item, pause)];
      }
      after := after + [Notice(Updated, item)];
    }

    method ResumeTransfer(id: string) returns (ok: bool, after: seq<Effect>)
      requires ItemsNamed(State())
      modifies this`transfers
      ensures Outcome(State(), ok, after) == Section(old(State()), Resume(id), 0) && ItemsNamed(State())
    {
      if id !in transfers || transfers[id].state != Paused {
        return false, [];
      }
      var resume := None;
      if id in controls {
        resume := controls[id].resume;
      }
      var item := transfers[id].(state := InProgress);
      transfers := transfers[id := item];
      ok, after := true, [];
      if resume.Some? {
        after := after + [Effect(ResumeCalled, item, resume)];
      }
      after := after + [Notice(Updated, item)];
    }
  }
}
