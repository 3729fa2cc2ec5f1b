/** The orchestrator object over a session and a profile manager
    (src/core/session/session_privacy_orchestrator.cpp).  It shares the session's engine. */
module PrivacyOrchestrators {
  import opened Common
  import opened Tabs
  import opened SessionSpec
  import opened SessionInvariant
  import opened Browser
  import opened ProfileManagers
  import opened PrivacySpec
  import opened PrivateMode

  class SessionPrivacyOrchestrator {
    const session: BrowserSession
    const profiles: ProfileManager
    var ephemeralTabCounter: nat
    var persistentTabCounter: nat

    ghost function State(): Desktop
      reads this, session, profiles
    {
      Desktop(session.State(), profiles.State(), ephemeralTabCounter, persistentTabCounter)
    }

    ghost predicate Valid()
      reads this, session, profiles
    {
      ModeSafe(State())
    }

    constructor (session: BrowserSession, profiles: ProfileManager)
      requires ModeSafe(Desktop(session.State(), profiles.State(), 0, 0))
      ensures Valid() && State() == Desktop(session.State(), profiles.State(), 0, 0)
      ensures this.session == session && this.profiles == profiles
    {
      this.session, this.profiles := session, profiles;
      ephemeralTabCounter, persistentTabCounter := 0, 0;
    }

    method IsPrivateModeActive() returns (private: bool)
      ensures private == IsPrivate(State())
    {
      private := profiles.activeId in profiles.known && profiles.known[profiles.activeId] == Ephemeral;
    }

    method CanActivateTab(id: TabId) returns (ok: bool)
      ensures ok == CanActivate(State(), id)
    {
      var k := session.FindMutable(id);
      if k == |session.tabs| {
        return false;
      }
      var private := IsPrivateModeActive();
      ok := if private then session.tabs[k].isEphemeral else !session.tabs[k].isEphemeral;
    }

    method ActivateTab(id: TabId) returns (ok: bool)
      requires Valid()
      modifies session
      ensures Valid() && State() == AfterActivateTab(old(State()), id)
      ensures ok == CanActivate(old(State()), id)
    {
      hide ModeSafe, SessionInvariant.Valid, AfterActivate;
      SafeIsValid(State());
      ok := CanActivateTab(id);
      if ok {
        ActivateSafe(State(), id);
        ok := session.ActivateTab(id);
      }
    }

    // Opens the next "Private Tab" and shows it.
    method OpenPrivateTab() returns (ok: bool)
      requires session.Valid()
      modifies this, session
      ensures session.Valid() && State() == WithPrivateTab(old(State()))
      ensures ephemeralTabCounter == old(ephemeralTabCounter) + 1
      ensures ok == Opens(old(session.State()), PrivateTab(ephemeralTabCounter))
    {
      hide SessionInvariant.Valid, AfterOpen, Opens;
      ephemeralTabCounter := ephemeralTabCounter + 1;
      ok := session.OpenTab(
        NewTab("private-tab-" + Decimal(ephemeralTabCounter), "https://example.com/", "Private Tab", None, true), true);
    }

    method FindFirstOfMode(private: bool) returns (k: nat)
      ensures k == FirstOfMode(session.tabs, private)
    {
      k := 0;
      while k < |session.tabs| && session.tabs[k].isEphemeral != private
        invariant k <= |session.tabs|
        invariant forall j | 0 <= j < k :: session.tabs[j].isEphemeral != private
      {
        k := k + 1;
      }
    }

    method CloseTab(id: TabId) returns (ok: bool)
      requires Valid()
      modifies this, session
      ensures Valid() && State() == AfterCloseTab(old(State()), id)
      ensures ok == Closes(old(State()), id)
    {
      hide ModeSafe, SessionInvariant.Valid, AfterActivate, AfterClose, WithPrivateTab;
      SafeIsValid(State());
      var private := IsPrivateModeActive();
      if !private {
        NormalCloseSafe(State(), id);
        ok := session.CloseTab(id, ActivateFallback);
        return;
      }
      PrivateCloseSafe(State(), id);
      var k := session.FindMutable(id);
      if k == |session.tabs| || !session.tabs[k].isEphemeral {
        return false;
      }
      var wasActive := session.activeTabId == Some(id);
      ok := session.CloseTab(id, DoNotActivateFallback);
      if wasActive {
        var next := FindFirstOfMode(true);
        if next < |session.tabs| {
          var shown := session.ActivateTab(session.tabs[next].id);
        } else {
          var ok' := OpenPrivateTab();
        }
      }
    }

    method CloseActiveTab() returns (ok: bool)
      requires Valid()
      modifies this, session
      ensures Valid() && State() == AfterCloseActive(old(State()))
      ensures ok == (old(session.activeTabId).Some? && Closes(old(State()), old(session.activeTabId).value))
    {
      if session.activeTabId.None? {
        return false;
      }
      ok := CloseTab(session.activeTabId.value);
    }

    method ReopenClosedTab() returns (restored: Option<TabId>)
      requires Valid()
      modifies session
      ensures Valid() && State() == AfterReopenClosed(old(State()))
      ensures restored == ReopenResult(old(session.State()), ModeOfRecords(old(State())))
    {
      hide ModeSafe, SessionInvariant.Valid, AfterReopen, ReopenResult;
      SafeIsValid(State());
      ReopenSafe(State());
      var private := IsPrivateModeActive();
      restored := session.ReopenLastClosedTab(if private then EphemeralOnly else PersistentOnly);
    }

    method SendModeCommand(c: EngineCommand)
      requires session.Valid() && (c.SetEphemeralMode? || c.PurgeEphemeralContext?)
      requires c.PurgeEphemeralContext?
               ==> !ModeFlag(session.State()) && forall i | 0 <= i < |session.tabs| :: !session.tabs[i].isEphemeral
      modifies session
      ensures session.Valid() && session.State() == Emit(old(session.State()), c)
    {
      hide SessionInvariant.Valid;
      ModeCommandKeeps(session.State(), c);
      session.commands := session.commands + [c];
    }

    // A fresh ephemeral profile becomes the active one.
    method StartEphemeralProfile()
      requires profiles.Valid()
      modifies profiles
      ensures profiles.Valid()
      ensures var created := AfterCreateEphemeral(old(profiles.State()));
              profiles.State() == AfterSetActive(created, EphemeralId(created.ephemeralCounter))
    {
      hide EphemeralId;
      var id := profiles.CreateEphemeralProfile();
      var switched := profiles.SetActiveProfile(id);
    }

    method EnterPrivateMode() returns (ok: bool)
      requires Valid()
      modifies this, session, profiles
      ensures Valid() && State() == AfterEnter(old(State()))
      ensures ok
    {
      hide ModeSafe, SessionInvariant.Valid, WithPrivateTab, AfterCreateEphemeral, AfterSetActive, EphemeralId,
        ModeFlag, Opens, ReservedIssued, PrivateTab, Spares, IsPrivate, ValidProfiles;
      SafeParts(State());
      EnterSafe(State());
      StartEphemeralProfile();
      SendModeCommand(SetEphemeralMode(true));
      PrivateTabOpens(session.State(), ephemeralTabCounter);
      ok := OpenPrivateTab();
    }

    method CollectEphemeralIds() returns (ids: seq<TabId>)
      ensures ids == EphemeralIds(session.tabs)
    {
      ids := [];
      for i := 0 to |session.tabs|
        invariant ids == EphemeralIds(session.tabs[..i])
      {
        assert session.tabs[..i + 1][..i] == session.tabs[..i];
        if session.tabs[i].isEphemeral {
          ids := ids + [session.tabs[i].id];
        }
      }
      assert session.tabs[..|session.tabs|] == session.tabs;
    }

    // Closes every private tab without showing another one.
    method CloseEphemeralTabs()
      requires session.Valid()
      modifies session
      ensures session.Valid()
      ensures session.State() == AfterCloses(old(session.State()), EphemeralIds(old(session.tabs)))
    {
      hide SessionInvariant.Valid, AfterClose, EphemeralIds;
      ghost var before := session.State();
      var ids := CollectEphemeralIds();
      for i := 0 to |ids|
        invariant session.Valid()
        invariant session.State() == AfterCloses(before, ids[..i])
      {
        assert ids[..i + 1][..i] == ids[..i];
        var ok := session.CloseTab(ids[i], DoNotActivateFallback);
      }
      assert ids[..|ids|] == ids;
    }

    // Steps 1 to 4: close, leave ephemeral mode, purge the engine context, the profiles and the records.
    method WipePrivateSession()
      requires session.Valid() && profiles.Valid()
      modifies session, profiles
      ensures session.Valid() && State() == AfterWipe(old(State()))
    {
      hide SessionInvariant.Valid, AfterCloses, EphemeralIds, ModeFlag, AfterPurgeClosed, AfterPurge, ValidProfiles;
      ghost var before := State();
      ClosedIsPersistent(before);
      CloseEphemeralTabs();
      ModeCommandKeeps(session.State(), SetEphemeralMode(false));
      SendModeCommand(SetEphemeralMode(false));
      SendModeCommand(PurgeEphemeralContext);
      var restored := profiles.SetActiveProfile("default");
      profiles.PurgeEphemeralProfiles();
      session.PurgeEphemeralClosedTabs();
    }

    // Step 6: shows the first persistent tab, or a new one when none is left.
    method RestorePersistentTab()
      requires session.Valid()
      modifies this, session
      ensures session.Valid() && State() == AfterRestorePersistent(old(State()))
    {
      hide SessionInvariant.Valid, AfterActivate, AfterOpen;
      if session.tabs == [] {
        persistentTabCounter := persistentTabCounter + 1;
        var ok := session.OpenTab(
          NewTab("tab-" + Decimal(persistentTabCounter), "https://example.com/", "New Tab", None, false), true);
      } else {
        var k := FindFirstOfMode(false);
        if k < |session.tabs| {
          var ok := session.ActivateTab(session.tabs[k].id);
        }
      }
    }

    method ExitPrivateMode()
      requires Valid()
      modifies this, session, profiles
      ensures Valid() && State() == AfterExit(old(State()))
    {
      hide ModeSafe, SessionInvariant.Valid, AfterWipe, AfterRestorePersistent;
      SafeParts(State());
      ExitSafe(State());
      WipePrivateSession();
      RestorePersistentTab();
    }
  }
}
