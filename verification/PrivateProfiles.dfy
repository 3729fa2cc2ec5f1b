/** What a private session does to the profiles: the ephemeral ones go, and the persistent ones come back
    unless a generated id overwrote them. */
module PrivateProfiles {
  import opened Common
  import opened SessionSpec
  import opened ProfileManagers
  import opened PrivacySpec
  import opened PrivateMode

  ghost predicate Generated(id: string, from: nat, to: nat) {
    exists k: nat :: from < k <= to && id == EphemeralId(k)
  }

  predicate IsPersistent(p: Profiles, id: string) {
    id in p.known && p.known[id] == Persistent
  }

  // The persistent profiles of q are those of p whose ids were not generated in between.
  ghost predicate LeavesPersistent(p: Profiles, q: Profiles) {
    && p.ephemeralCounter <= q.ephemeralCounter
    && forall id :: IsPersistent(q, id) <==>
      IsPersistent(p, id) && !Generated(id, p.ephemeralCounter, q.ephemeralCounter)
  }

  lemma LeavesSelf(p: Profiles)
    ensures LeavesPersistent(p, p)
  {
  }

  lemma LeavesTwice(p: Profiles, q: Profiles, r: Profiles)
    requires LeavesPersistent(p, q) && LeavesPersistent(q, r)
    ensures LeavesPersistent(p, r)
  {
    var a, b, c := p.ephemeralCounter, q.ephemeralCounter, r.ephemeralCounter;
    forall id
      ensures Generated(id, a, c) <==> Generated(id, a, b) || Generated(id, b, c)
    {
      if k: nat :| a < k <= c && id == EphemeralId(k) {
        assert Generated(id, if k <= b then a else b, if k <= b then b else c);
      }
    }
  }

  lemma EnterLeaves(d: Desktop)
    ensures LeavesPersistent(d.profiles, AfterEnter(d).profiles)
    ensures AfterEnter(d).profiles.ephemeralCounter == d.profiles.ephemeralCounter + 1
  {
    hide EphemeralId;
    var p := d.profiles;
    var n := p.ephemeralCounter + 1;
    forall id
      ensures Generated(id, p.ephemeralCounter, n) <==> id == EphemeralId(n)
    {
      assert p.ephemeralCounter < n <= n;
    }
  }

  // How often a run enters private mode.
  function Enters(ops: seq<DesktopOp>): nat
    decreases |ops|
  {
    if ops == [] then 0 else (if ops[0].EnterPrivate? then 1 else 0) + Enters(ops[1..])
  }

  lemma {:induction false} PrivateRunLeaves(d: Desktop, ops: seq<DesktopOp>)
    requires ModeSafe(d) && IsPrivate(d) && PrivateRun(d, ops)
    ensures LeavesPersistent(d.profiles, DesktopRun(d, ops).profiles)
    ensures DesktopRun(d, ops).profiles.ephemeralCounter == d.profiles.ephemeralCounter + Enters(ops)
    decreases |ops|
  {
    hide ModeSafe, Spares, LeavesPersistent;
    if ops == [] {
      LeavesSelf(d.profiles);
    } else {
      var e := DesktopStep(d, ops[0]);
      PrivateStepLeaves(d, ops[0]);
      hide DesktopStep, Permitted, InsidePrivate;
      DesktopStepSafe(d, ops[0]);
      PrivateStepSpares(d, ops[0]);
      PrivateRunLeaves(e, ops[1..]);
      LeavesTwice(d.profiles, e.profiles, DesktopRun(d, ops).profiles);
    }
  }

  lemma PrivateStepLeaves(d: Desktop, op: DesktopOp)
    requires IsPrivate(d) && Permitted(d, op) && InsidePrivate(d, op)
    ensures LeavesPersistent(d.profiles, DesktopStep(d, op).profiles)
    ensures DesktopStep(d, op).profiles.ephemeralCounter == d.profiles.ephemeralCounter + Enters([op])
  {
    hide LeavesPersistent, AfterOpen, AfterCycle, AfterSuspend, AfterResume, AfterDiscard, AfterNavigate, AfterHistory,
         AfterEvent, AfterActivate, AfterClose, AfterReopen, IsReserved;
    assert [op][1..] == [];
    if op.EnterPrivate? {
      EnterLeaves(d);
    } else {
      LeavesSelf(d.profiles);
    }
  }

  // After a private session every profile is persistent, the default one is active, and the persistent
  // profiles are those there were whose ids were not generated.
  lemma EpisodeProfiles(d: Desktop, ops: seq<DesktopOp>)
    requires ModeSafe(d) && PrivateRun(AfterEnter(d), ops)
    ensures var p, r := d.profiles, PrivateEpisode(d, ops).profiles;
      && LeavesPersistent(p, r)
      && (forall id | id in r.known :: r.known[id] == Persistent)
      && r.activeId == DEFAULT_ID
      && r.ephemeralCounter == p.ephemeralCounter + 1 + Enters(ops)
  {
    hide Spares, LeavesPersistent, DesktopRun, PrivateRun, AfterEnter, ModeSafe;
    EnterSafe(d);
    EnterLeaves(d);
    PrivateRunLeaves(AfterEnter(d), ops);
    var m := DesktopRun(AfterEnter(d), ops);
    LeavesTwice(d.profiles, AfterEnter(d).profiles, m.profiles);
    DefaultKnown(AfterEnter(d), ops);
    WipeLeaves(m);
    LeavesTwice(d.profiles, m.profiles, AfterExit(m).profiles);
  }

  lemma DefaultKnown(d: Desktop, ops: seq<DesktopOp>)
    requires ModeSafe(d) && IsPrivate(d) && PrivateRun(d, ops)
    ensures DEFAULT_ID in DesktopRun(d, ops).profiles.known
    ensures IsPersistent(DesktopRun(d, ops).profiles, DEFAULT_ID)
  {
    hide DesktopRun, PrivateRun, Spares;
    PrivateRunSpares(d, ops);
  }

  lemma WipeLeaves(d: Desktop)
    requires IsPersistent(d.profiles, DEFAULT_ID)
    ensures var p, r := d.profiles, AfterExit(d).profiles;
      && LeavesPersistent(p, r) && (forall id | id in r.known :: r.known[id] == Persistent)
      && r.activeId == DEFAULT_ID && r.ephemeralCounter == p.ephemeralCounter
  {
    hide AfterOpen, AfterActivate, AfterCloses, AfterPurgeClosed, FirstOfMode;
    assert AfterExit(d).profiles == AfterPurge(AfterSetActive(d.profiles, DEFAULT_ID));
  }

  // So a private session gives back all profiles exactly when none has one of the ids it generates.
  lemma ProfilesComeBack(d: Desktop, ops: seq<DesktopOp>)
    requires ModeSafe(d) && PrivateRun(AfterEnter(d), ops)
    requires forall id | id in d.profiles.known :: d.profiles.known[id] == Persistent
    ensures var p := d.profiles;
      PrivateEpisode(d, ops).profiles.known == p.known
      <==> forall k: nat | p.ephemeralCounter < k <= p.ephemeralCounter + 1 + Enters(ops) :: EphemeralId(k) !in p.known
  {
    hide PrivateEpisode, PrivateRun, ModeSafe, EphemeralId, Enters;
    EpisodeProfiles(d, ops);
    var p, r := d.profiles, PrivateEpisode(d, ops).profiles;
    if k: nat :| p.ephemeralCounter < k <= r.ephemeralCounter && EphemeralId(k) in p.known {
      assert Generated(EphemeralId(k), p.ephemeralCounter, r.ephemeralCounter);
      assert !IsPersistent(r, EphemeralId(k));
    } else {
      forall id
        ensures id in r.known <==> id in p.known
      {
        assert IsPersistent(r, id) <==> IsPersistent(p, id) && !Generated(id, p.ephemeralCounter, r.ephemeralCounter);
      }
      assert r.known == p.known;
    }
  }
}
