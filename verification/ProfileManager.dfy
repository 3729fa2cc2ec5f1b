/** The profile map and the active profile (src/core/profiles/profile_manager.cpp).
    Vault and session data inside a profile are not modelled. */
module ProfileManagers {
  import opened Common

  datatype ProfileType = Persistent | Ephemeral

  datatype Profiles = Profiles(known: map<string, ProfileType>, activeId: string, ephemeralCounter: nat)

  const DEFAULT_ID := "default"

  // The default profile is always there and never ephemeral; the active profile exists.
  ghost predicate ValidProfiles(p: Profiles) {
    && DEFAULT_ID in p.known && p.known[DEFAULT_ID] == Persistent
    && p.activeId in p.known
  }

  predicate EphemeralActive(p: Profiles) {
    p.activeId in p.known && p.known[p.activeId] == Ephemeral
  }

  function EphemeralId(n: nat): (id: string)
    ensures id != DEFAULT_ID && id != ""
  {
    var id := "ephemeral-" + Decimal(n);
    assert id[0] == 'e';
    id
  }

  function AfterCreate(p: Profiles, id: string, kind: ProfileType): Profiles {
    if id == "" || id in p.known then p
    else p.(known := p.known[id := kind], activeId := if p.activeId == "" then id else p.activeId)
  }

  function AfterSetActive(p: Profiles, id: string): Profiles {
    if id in p.known then p.(activeId := id) else p
  }

  function AfterRemove(p: Profiles, id: string): Profiles {
    if id == DEFAULT_ID || id !in p.known then p
    else p.(known := p.known - {id}, activeId := if p.activeId == id then DEFAULT_ID else p.activeId)
  }

  function AfterCreateEphemeral(p: Profiles): Profiles {
    p.(known := p.known[EphemeralId(p.ephemeralCounter + 1) := Ephemeral], ephemeralCounter := p.ephemeralCounter + 1)
  }

  function AfterPurge(p: Profiles): Profiles {
    p.(known := map id | id in p.known && p.known[id] == Persistent :: Persistent,
       activeId := if EphemeralActive(p) then DEFAULT_ID else p.activeId)
  }

  // A purge leaves no ephemeral profile, every persistent one, and a persistent active profile; an
  // active profile that is persistent stays active.
  lemma PurgeLeavesPersistent(p: Profiles)
    requires ValidProfiles(p)
    ensures var r := AfterPurge(p);
      && ValidProfiles(r) && !EphemeralActive(r)
      && r.known.Keys == (set id | id in p.known && p.known[id] == Persistent)
      && (!EphemeralActive(p) ==> r.activeId == p.activeId)
  {
  }

  // Entering and purging again gives back the profiles there were, unless a persistent profile
  // already had the generated id: then that profile is overwritten and lost.
  lemma EphemeralRoundTrip(p: Profiles)
    requires ValidProfiles(p) && forall id | id in p.known :: p.known[id] == Persistent
    ensures AfterPurge(AfterCreateEphemeral(p)).known == p.known <==> EphemeralId(p.ephemeralCounter + 1) !in p.known
  {
    var id := EphemeralId(p.ephemeralCounter + 1);
    assert id !in AfterPurge(AfterCreateEphemeral(p)).known;
  }

  const NEW_PROFILES := Profiles(map[DEFAULT_ID := Persistent], DEFAULT_ID, 0)

  // A persistent profile called ephemeral-1 is gone after the first private session.
  lemma NamesakeLost()
    ensures var p := AfterCreate(NEW_PROFILES, "ephemeral-1", Persistent);
      && p.known == map[DEFAULT_ID := Persistent, "ephemeral-1" := Persistent]
      && AfterPurge(AfterCreateEphemeral(p)).known == NEW_PROFILES.known
  {
    assert Decimal(1) == "1" && EphemeralId(1) == "ephemeral-1";
    assert "ephemeral-1"[0] == 'e' && DEFAULT_ID[0] == 'd';
  }

  // What each call does to the profile map and the active profile; all others stay.
  lemma ProfileCallsDo(p: Profiles, id: string, kind: ProfileType)
    requires ValidProfiles(p)
    ensures var r := AfterCreate(p, id, kind);
      if id == "" || id in p.known then r == p
      else && r.known == p.known[id := kind] && r.activeId == (if p.activeId == "" then id else p.activeId)
           && r.ephemeralCounter == p.ephemeralCounter
    ensures var r := AfterSetActive(p, id);
      r.known == p.known && r.activeId == (if id in p.known then id else p.activeId)
    ensures var r := AfterRemove(p, id);
      if id == "default" || id !in p.known then r == p
      else && (forall x :: x in r.known <==> x in p.known && x != id)
           && (forall x | x in r.known :: r.known[x] == p.known[x])
           && r.activeId == (if p.activeId == id then "default" else p.activeId)
           && r.ephemeralCounter == p.ephemeralCounter
    ensures var r := AfterCreateEphemeral(p); var next := "ephemeral-" + Decimal(p.ephemeralCounter + 1);
      && r.known == p.known[next := Ephemeral] && r.activeId == p.activeId
      && r.ephemeralCounter == p.ephemeralCounter + 1
  {
  }

  class ProfileManager {
    var known: map<string, ProfileType>
    var activeId: string
    var ephemeralCounter: nat

    ghost function State(): Profiles
      reads this
    {
      Profiles(known, activeId, ephemeralCounter)
    }

    ghost predicate Valid()
      reads this
    {
      ValidProfiles(State())
    }

    constructor ()
      ensures Valid() && State() == NEW_PROFILES
    {
      known, activeId, ephemeralCounter := map[DEFAULT_ID := Persistent], DEFAULT_ID, 0;
    }

    method CreateProfile(id: string, kind: ProfileType) returns (ok: bool)
      requires Valid()
      modifies this
      ensures Valid() && State() == AfterCreate(old(State()), id, kind)
      ensures ok == (id != "" && id !in old(known))
    {
      if id == "" || id in known {
        return false;
      }
      known := known[id := kind];
      if activeId == "" {
        activeId := id;
      }
      ok := true;
    }

    method SetActiveProfile(id: string) returns (ok: bool)
      requires Valid()
      modifies this
      ensures Valid() && State() == AfterSetActive(old(State()), id)
      ensures ok == (id in old(known))
    {
      if id !in known {
        return false;
      }
      activeId := id;
      ok := true;
    }

    method RemoveProfile(id: string) returns (ok: bool)
      requires Valid()
      modifies this
      ensures Valid() && State() == AfterRemove(old(State()), id)
      ensures ok == (id != DEFAULT_ID && id in old(known))
    {
      if id == DEFAULT_ID || id !in known {
        return false;
      }
      known := known - {id};
      if activeId == id {
        activeId := DEFAULT_ID;
      }
      ok := true;
    }

    method CreateEphemeralProfile() returns (id: string)
      requires Valid()
      modifies this
      ensures Valid() && State() == AfterCreateEphemeral(old(State()))
      ensures id == EphemeralId(ephemeralCounter) && id in known && known[id] == Ephemeral
    {
      ephemeralCounter := ephemeralCounter + 1;
      id := EphemeralId(ephemeralCounter);
      known := known[id := Ephemeral];
    }

    // Erases ephemeral profiles one by one, in no particular order.
    method PurgeEphemeralProfiles()
      requires Valid()
      modifies this
      ensures Valid() && State() == AfterPurge(old(State()))
    {
      ghost var before := State();
      var unseen := known.Keys;
      while unseen != {}
        invariant unseen <= known.Keys <= before.known.Keys
        invariant forall id | id in known :: known[id] == before.known[id]
        invariant forall id | id in before.known :: id in known <==> id in unseen || before.known[id] == Persistent
        invariant ephemeralCounter == before.ephemeralCounter
        invariant activeId == if before.activeId in known then before.activeId else DEFAULT_ID
        decreases unseen
      {
        var id :| id in unseen;
        unseen := unseen - {id};
        if known[id] == Ephemeral {
          if activeId == id {
            activeId := DEFAULT_ID;
          }
          known := known - {id};
        }
      }
      assert known == AfterPurge(before).known;
    }
  }
}
