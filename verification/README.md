# Openbrowser core: a verified model

Openbrowser keeps its browser state in engine-independent C++ under `src/core/`. This project models that core and proves
what it keeps over whole runs. Every object the source edits in place is a class here; each of its methods is proved
against a specification function (`AfterOpen`, `AfterWrite`, `Section`, ...), and the theorems are about runs of those
functions. Loops of the source are loops of the model. What each call does is stated once more apart from those functions,
on the fields it reads and writes (`SessionEffects`, `TransferLaws`, `WriteReports`, `CaptureHoldsPersistentPart`,
`KeptEventsAreThose`, `ReadExactly`, `ReadIsInMembers`), so that the functions are not their own judges.

The parts:

- **Session kernel.** `BrowserSession` (tabs, closed-tab stack, active tab, commands to the engine port), the focus queue
  and its controller, the profile manager, the discard policy and the privacy orchestrator. The engine is the log of
  commands it was sent, replayed into an abstract synchronous engine (`SessionInvariant.Replay`).
- **Persistence.** Capture and restore, the session document as text and as a JSON tree, the recursive-descent parser, and
  the file store whose writes are described by every disk state they pass through, so that a crash is a choice of a state.
- **Network trace.** The bounded event buffer, the one-pass aggregation into request summaries, and the URL redaction.
- **Transfers and sync.** The transfer broker with each critical section and each notification as a step of its own, run by
  any number of threads; and the last-writer-wins merge of the local sync store.

Strings are sequences of characters, one per byte of the source's `std::string`; the theorems hold for all of them.
`std::stod` is a parameter of the parser, the clock is a parameter of the calls that read it, and a fault of the file system
is a parameter of the write.

Where a promise is not kept by the code, the code is modelled as it is, a lemma gives an input that shows it, and another
lemma says exactly when the promise is kept:

- reopening a closed tab drops its record when a tab already has the next `restored-N` id (`RecordLost`,
  `ReopenSucceedsWhen`);
- activation numbers stop telling which tab was shown last when a background open brings a number with it
  (`StampedPassesForRecent`; the order of the numbers alone is kept as `OpenKeepsOrderExactly` says, order and the meaning
  of 0 together as `OpenTracksExactly` and `RunTracksExactly` say);
- purging does not give back the profiles when a persistent one has the generated ephemeral id (`NamesakeLost`,
  `EphemeralRoundTrip`; for a whole private session `ProfilesComeBack`);
- a write can report success although the content is not in the file, because the error of the fallback copy is overwritten
  (`SuccessWithoutContent`, `SuccessMeansWritten`);
- a save copies an invalid file over a backup that was still good (`OverwrittenBackup`, `SafeWhenTargetValid`,
  `SaveOverTornExactly`), so that a crash in a save without any fault can lose both sessions (`NextSaveLosesBoth`);
- a save can lose both the old and the new session when the rename fails (`BothSessionsLost`, `SaveSafeExactly`);
- redaction of a URL whose first `://` is after the `?` can lose pairs (`PairLost`, `WorksByPartsExactly`) and is not
  idempotent, in two ways (`SecondPassChanges`, `SecondPassReachesFurther`, `IdempotentExactly`);
- an update of a transfer can be delivered after its finish, by two threads or by one (`UpdateHeardAfterFinish`,
  `UpdateHeardAfterOwnFinish`, `HeardInOrderExactly`);
- the sync store depends on the order of pushes exactly when maximal records of one id differ (`PushOrderMatters`,
  `ConvergesExactly`).

## Model

| member | source | states |
|---|---|---|
| SessionRuns.EngineRefinement | src/core/session/browser_session.cpp:33-435 | after any run from a new session, replaying the emitted commands gives an engine that holds exactly the non-discarded tabs, has suspended exactly the Suspended ones, shows the session's active tab, marks as private exactly the private ones, and had to refuse no command (none but a close goes to a dead tab) |
| SessionRuns.LifecycleSafety | src/core/session/browser_session.cpp:33-435 | in every reachable state ids are unique, a tab is Active exactly when it is the session's active tab, the active tab exists, and the closed-tab stack has at most 25 records, none blank |
| SessionRuns.AlwaysAnActiveTab | src/core/session/browser_session.cpp:73-108 | over all runs with the default close policy a session that has tabs always has an active one |
| SessionRuns.StepKeeps | src/core/session/browser_session.cpp:33-384 | every call and every engine event keeps the lifecycle invariant and the agreement with the replayed engine |
| SessionRequests.EngineAskedAsAccepted | src/core/session/browser_session.cpp:237-286 | over any run the engine was asked for exactly the urls and history moves of the accepted navigation calls, for the tabs they name and in their order |
| SessionRecency.SequenceIsRecency | src/core/session/browser_session.cpp:48-51 | after any run in which no background open brings an activation number, comparing activation numbers of loaded tabs is comparing when each was last shown according to the command log; 0 means never shown since its surface was created |
| SessionRecency.OpenTracksExactly | src/core/session/browser_session.cpp:33-71 | an open keeps the numbers in step with the command log, in order and with 0 on exactly the surfaces never shown, exactly when it is refused, activates the tab, opens the first one, or brings the number 0 |
| SessionRecency.OpenKeepsOrderExactly | src/core/session/browser_session.cpp:33-71 | from numbers in step, an open keeps their order among loaded tabs, which the discard order rests on, exactly then or when the number it brings is below that of every loaded tab |
| SessionRecency.RunTracksExactly | src/core/session/browser_session.cpp:33-384 | the numbers are in step with the command log, in order and in the meaning of 0, throughout a run exactly when every open of the run is refused, activates the tab, opens the first one, or brings the number 0 |
| SessionRecency.StampedPassesForRecent | src/core/session/browser_session.cpp:33-71 | a run in which a tab that was never shown has a higher number than the one that was |
| SessionChoice.ScanVisitsOnce | src/core/session/browser_session.cpp:420-428 | the modular scan to the left with wrap-around meets each tab position at exactly one offset, and at which |
| SessionChoice.ScanFinds | src/core/session/browser_session.cpp:415-435 | the scan ends at the first tab that is not discarded going left from the start with wrap-around, or at the start when all are discarded |
| SessionChoice.FallbackActivates | src/core/session/browser_session.cpp:415-435 | the fallback shows exactly that tab, waking it by exactly the command its lifecycle needs; it is re-created only when every tab is discarded |
| SessionChoice.CloseActivatesFallback | src/core/session/browser_session.cpp:73-108 | closing the active tab turns to that fallback of the remaining tabs, counted from the closed position |
| SessionChoice.CycleMoves | src/core/session/browser_session.cpp:154-201 | any number of cycle steps up to the number of visible tabs moves the active tab that many places around the ring of visible tabs, in the direction asked for |
| SessionChoice.CycleIsAPermutation | src/core/session/browser_session.cpp:154-201 | with a filter that lifecycle changes do not affect, going forward over n visible tabs shows each at exactly one step and comes back to the start |
| SessionChoice.BackwardUndoesForward | src/core/session/browser_session.cpp:154-201 | a step back undoes a step forward and the other way round |
| ClosedTabs.ReopenTakesNewest | src/core/session/browser_session.cpp:110-142 | a reopen removes exactly the newest record of its mode, keeps the others in order, and does nothing without one |
| ClosedTabs.ReopenSucceedsWhen | src/core/session/browser_session.cpp:124-141 | reopening succeeds exactly when a record of the mode exists and no tab has the next restored-N id; otherwise the record is gone and no tab appears |
| ClosedTabs.RecordLost | src/core/session/browser_session.cpp:124-138 | a run of three calls that opens a tab called restored-1, after which the first reopen loses its record and opens nothing |
| ClosedTabs.CloseThenReopen | src/core/session/browser_session.cpp:73-142 | close then reopen restores url (unless a placeholder, exactly), defaulted title, workspace and privacy flag in a new active tab at the end, and leaves the stack as it was but for the oldest record of a full one |
| ClosedTabs.RestoredTabOpens | src/core/session/browser_session.cpp:124-137 | a remembered record can always be opened, and keeps its url exactly when it is no legacy placeholder |
| Browser.BrowserSession.OpenTab | src/core/session/browser_session.cpp:33-71 | opens the tab with placeholder url replaced, demotes the shown tab only when the new one is activated, creates its surface before activating it; refused for an empty id or url or a taken id, with the whole session unchanged |
| Browser.BrowserSession.CloseTab | src/core/session/browser_session.cpp:73-108 | removes the tab, remembers it unless blank with the oldest record making room, closes its surface, and falls back only when it was active and the policy says so |
| Browser.BrowserSession.ActivateAfterClose | src/core/session/browser_session.cpp:415-435 | the loop with modulo picks the tab of the specified scan |
| Browser.BrowserSession.ReopenLastClosedTab | src/core/session/browser_session.cpp:110-142 | takes the newest record of the mode and answers the new id exactly when the tab opened |
| Browser.BrowserSession.PurgeEphemeralClosedTabs | src/core/session/browser_session.cpp:148-152 | leaves exactly the persistent records, in order |
| Browser.BrowserSession.CycleTab | src/core/session/browser_session.cpp:154-201 | shows the next or previous visible tab around the ring; false exactly when no tab is visible |
| Browser.BrowserSession.ActivateTab | src/core/session/browser_session.cpp:203-235 | wakes, demotes, stamps and shows; nothing for the tab already active; false exactly for a missing tab |
| Browser.BrowserSession.Navigate | src/core/session/browser_session.cpp:237-259 | wakes a suspended tab, then asks for the url; refused for an empty url and for missing or discarded tabs |
| Browser.BrowserSession.GoBackForwardOrReload | src/core/session/browser_session.cpp:261-286 | the three history commands, for loaded tabs only, after waking a suspended one |
| Browser.BrowserSession.SuspendTab | src/core/session/browser_session.cpp:288-301 | refused for missing, active and discarded tabs; a second suspend sends nothing |
| Browser.BrowserSession.ResumeTab | src/core/session/browser_session.cpp:303-316 | brings a suspended tab to the background and refuses discarded ones |
| Browser.BrowserSession.DiscardTab | src/core/session/browser_session.cpp:318-328 | closes the surface of a loaded tab that is not active and marks it Discarded |
| Browser.BrowserSession.OnEngineEvent | src/core/session/browser_session.cpp:338-384 | events change the navigation fields of the loaded tab they name and nothing else; events for missing or discarded tabs are ignored |
| SessionEffects.NavigateDoes | src/core/session/browser_session.cpp:237-259 | an accepted navigation puts the url asked for into the pending field of this tab, Requested and without an error, wakes it if it slept, and sends exactly that url after at most one resume; a refused one leaves the session alone |
| SessionEffects.HistoryDoes | src/core/session/browser_session.cpp:261-286 | a history call changes nothing about the tab but its sleep and sends exactly the command asked for |
| SessionEffects.SuspendDoes | src/core/session/browser_session.cpp:288-301 | an accepted suspend makes the tab Suspended with one command, a second one sends none, and nothing else changes |
| SessionEffects.ResumeDoes | src/core/session/browser_session.cpp:303-316 | a resume brings a suspended tab to the background with one command and changes nothing else |
| SessionEffects.DiscardDoes | src/core/session/browser_session.cpp:318-328 | a discard marks a loaded inactive tab Discarded with one close command and changes nothing else |
| SessionEffects.EventDoes | src/core/session/browser_session.cpp:338-384 | each kind of event: a commit stores its url and ends the request, a failure and a crash keep the request and store their message or the fallback text, a title changes the title alone, all in the tab they name |
| SessionEffects.OpenDoes | src/core/session/browser_session.cpp:33-71 | a new tab comes last with the fields it brings and its opening url requested; which tab is shown, which goes to the background, and both commands |
| SessionEffects.OpensAt | src/core/session/browser_session.cpp:33-46 | a tab opens at its own url, unless that is the old placeholder under one of its three titles: then at the new-tab page of its mode |
| SessionEffects.ActivateDoes | src/core/session/browser_session.cpp:203-235 | a tab that is shown gets the next number, the one before goes to the background, and the engine hears what wakes it and then the activation |
| SessionEffects.CloseDoes | src/core/session/browser_session.cpp:73-108 | a close without fallback takes out exactly this tab and remembers it last, unless blank or a new-tab page; of more than 25 records the oldest goes |
| SessionEffects.PurgeDoes | src/core/session/browser_session.cpp:148-152 | the records left are those at the positions of the persistent ones |
| FocusQueues.MovedAt | src/core/focus_queue/focus_queue.cpp:28-47 | which item stands at each place after a move |
| FocusQueues.MoveKeepsOrder | src/core/focus_queue/focus_queue.cpp:28-47 | all items but the moved one keep their order |
| FocusQueues.MovePermutes | src/core/focus_queue/focus_queue.cpp:28-47 | a move loses and repeats no item |
| FocusQueues.PromoteLeavesOneNow | src/core/focus_queue/focus_queue.cpp:69-83 | promoting puts the item in front as the one and only Now item; the others keep their order and everything but a Now state |
| FocusQueues.FocusQueue.Enqueue | src/core/focus_queue/focus_queue.cpp:9-16 | appends exactly when the item has an id, a url, and an id no queued item has |
| FocusQueues.FocusQueue.Remove | src/core/focus_queue/focus_queue.cpp:18-26 | removes exactly the item of this id |
| FocusQueues.FocusQueue.Move | src/core/focus_queue/focus_queue.cpp:28-47 | erase and insert in place give the moved list; refused for a position out of range or a missing item |
| FocusQueues.FocusQueue.SetTabId | src/core/focus_queue/focus_queue.cpp:59-67 | binds or unbinds one item and touches no other |
| FocusQueues.FocusQueue.PromoteToNow | src/core/focus_queue/focus_queue.cpp:69-83 | demotion loop, erase and insert give the promoted list |
| FocusQueues.EnqueueDoes | src/core/focus_queue/focus_queue.cpp:9-16 | when an item is accepted and that it stands last then, in the fields alone |
| FocusQueues.RemoveDoes | src/core/focus_queue/focus_queue.cpp:18-26 | the items left are those with another id, in order |
| FocusQueues.SetDoes | src/core/focus_queue/focus_queue.cpp:49-67 | one field of the one item with this id changes |
| FocusControllers.TakenBound | src/core/session/focus_session_controller.cpp:64-69 | no more ids can be taken than there are tabs, so the search for a free id ends |
| FocusControllers.FocusTabOpens | src/core/session/focus_session_controller.cpp:64-78 | the tab opened for an item always opens, under an id no tab has |
| FocusControllers.ActivationBindsItem | src/core/session/focus_session_controller.cpp:39-86 | after activating an item the active tab is loaded, persistent and the one the item is bound to; no other item changes |
| FocusControllers.CanActivateExactly | src/core/session/focus_session_controller.cpp:39-57 | an item can be activated exactly when the queue has it with a url and no private tab is shown |
| FocusControllers.BoundTabShown | src/core/session/focus_session_controller.cpp:39-62 | an item bound to a loaded persistent tab shows that tab: none is opened and the queue stays |
| FocusControllers.UnboundItemOpens | src/core/session/focus_session_controller.cpp:64-86 | any other item opens a last tab of its url and workspace, under an id made of its own, and is bound to it |
| FocusControllers.ActiveItemIs | src/core/session/focus_session_controller.cpp:7-37 | the item queued for the shown tab has its url, id and workspace, the state asked for and the given or generated id; none for a private tab |
| FocusControllers.FocusSessionController.EnqueueActiveTab | src/core/session/focus_session_controller.cpp:7-37 | queues the active tab unless it is private or missing, under the given or a generated id |
| FocusControllers.FocusSessionController.ActivateFocusItem | src/core/session/focus_session_controller.cpp:39-86 | shows the bound tab or opens a new one under the first free id, and is refused while a private tab is shown |
| FocusControllers.FocusSessionController.SynchronizeTabClosures | src/core/session/focus_session_controller.cpp:88-98 | clears exactly the tab ids that no tab of the list has and changes nothing else |
| FocusControllers.FocusSessionController.IsActiveTabInFocusQueue | src/core/session/focus_session_controller.cpp:100-122 | true exactly when a persistent active tab is named by an item's tab id or has an item's url |
| ProfileManagers.PurgeLeavesPersistent | src/core/profiles/profile_manager.cpp:199-212 | a purge leaves exactly the persistent profiles and a persistent active one, which stays if it was persistent |
| ProfileManagers.EphemeralRoundTrip | src/core/profiles/profile_manager.cpp:180-212 | create ephemeral then purge gives the profiles back exactly when no persistent profile has the generated id |
| ProfileManagers.NamesakeLost | src/core/profiles/profile_manager.cpp:180-212 | new profiles with a persistent one called ephemeral-1, which create ephemeral then purge loses |
| ProfileManagers.ProfileCallsDo | src/core/profiles/profile_manager.cpp:116-197 | what create, select, remove and create ephemeral do to the profile map, the active profile and the counter |
| ProfileManagers.ProfileManager.SetActiveProfile | src/core/profiles/profile_manager.cpp:151-158 | changes the active profile exactly for a known id |
| ProfileManagers.ProfileManager.RemoveProfile | src/core/profiles/profile_manager.cpp:160-178 | never removes the default profile, and falls back to it when the active one goes |
| ProfileManagers.ProfileManager.CreateEphemeralProfile | src/core/profiles/profile_manager.cpp:180-197 | adds an ephemeral profile under the next generated id |
| ProfileManagers.ProfileManager.PurgeEphemeralProfiles | src/core/profiles/profile_manager.cpp:199-212 | the erasing loop, in any order, leaves the persistent profiles |
| DiscardPolicy.SortedIsSort | src/core/session/tab_discard_policy.cpp:69-74 | the selection order is a sort of the eligible tabs by activation number, then tab order, losing none |
| DiscardPolicy.RankedIsEligible | src/core/session/tab_discard_policy.cpp:12-74 | the ranked candidates are exactly the eligible tabs, each once; no active, playing or focus-Now tab is among them |
| DiscardPolicy.RankedByRecency | src/core/session/tab_discard_policy.cpp:69-74 | in a session reached by a run the earlier candidate was really shown earlier, or both never and it stands first |
| DiscardPolicy.LowerPressureIsPrefix | src/core/session/tab_discard_policy.cpp:76-101 | the candidates at lower pressure are a prefix of those at higher pressure |
| DiscardPolicy.DiscardsSucceed | src/core/session/tab_discard_policy.cpp:103-115 | discarding the selected tabs one by one succeeds each time and discards exactly them |
| DiscardPolicy.EnforceReachesLimit | src/core/session/tab_discard_policy.cpp:12-115 | enforcing leaves exactly max(protected, min(loaded, limit)) background tabs loaded, touches only eligible tabs and keeps the session invariant |
| DiscardPolicy.SparedSurvive | src/core/session/tab_discard_policy.cpp:12-115 | enforcing leaves every tab as it was that is shown, given up, playing under that protection, or named by a Now item by id or url under that one; under critical pressure it discards every other one |
| DiscardPolicy.EnforceLeaves | src/core/session/tab_discard_policy.cpp:12-115 | it leaves as many loaded background tabs as are configured, half under moderate and none under critical pressure, but no more than there were and no fewer than are spared; the shown tab stays shown |
| DiscardPolicy.BackgroundIsEligibleOrProtected | src/core/session/tab_discard_policy.cpp:25-63 | loaded background tabs are the eligible and the protected ones, counted |
| DiscardPolicy.TabDiscardPolicy.SelectDiscardCandidates | src/core/session/tab_discard_policy.cpp:12-101 | the loops select the specified prefix of the ranking |
| DiscardPolicy.TabDiscardPolicy.Enforce | src/core/session/tab_discard_policy.cpp:103-115 | discards the whole selection and answers its size |
| PrivateMode.ModeSafety | src/core/session/session_privacy_orchestrator.cpp:17-187 | after any run of calls permitted in their mode, on a new desktop: in private mode a private tab is active and the engine is in ephemeral mode; otherwise no private tab and no private closed-tab record exists, and a session with tabs shows one |
| PrivateMode.DesktopRunSafe | src/core/session/session_privacy_orchestrator.cpp:17-187 | every permitted run keeps mode safety, from any state that has it |
| PrivateMode.PrivateNonInterference | src/core/session/session_privacy_orchestrator.cpp:61-187 | entering private mode, any private run and leaving give back the tabs that were there, in order with id, url, title and workspace, and a suffix of the closed-tab records |
| PrivateProfiles.EpisodeProfiles | src/core/session/session_privacy_orchestrator.cpp:110-187 | after entering private mode, any private run and leaving, every profile is persistent, the default one is active, and the persistent profiles are those there were but for the ids generated meanwhile |
| PrivateProfiles.ProfilesComeBack | src/core/session/session_privacy_orchestrator.cpp:110-187 | so the profiles come back exactly when none of them has an id generated meanwhile |
| PrivateMode.WipeClean | src/core/session/session_privacy_orchestrator.cpp:137-162 | leaving wipes every private tab, record, profile and the engine's mode before any persistent tab is shown, and keeps the persistent world |
| PrivateMode.FocusSafe | src/core/session/focus_session_controller.cpp:39-86 | the focus queue does nothing in private mode and keeps normal mode free of private tabs |
| PrivateChoice.EnterShows | src/core/session/session_privacy_orchestrator.cpp:110-134 | entering shows a new blank private tab under the next number, last, and selects the new ephemeral profile |
| PrivateChoice.PrivateCloseLeaves | src/core/session/session_privacy_orchestrator.cpp:61-79 | in private mode a persistent tab does not close, and closing a private tab that is not shown leaves the shown one |
| PrivateChoice.PrivateCloseShows | src/core/session/session_privacy_orchestrator.cpp:61-103 | when the shown private tab closes, the first other private tab is shown, or a new one when there is none |
| PrivateChoice.ExitShows | src/core/session/session_privacy_orchestrator.cpp:136-187 | leaving keeps exactly the persistent tabs and shows the first of them, or one new default tab when there is none |
| PrivacyOrchestrators.SessionPrivacyOrchestrator.IsPrivateModeActive | src/core/session/session_privacy_orchestrator.cpp:17-20 | private mode is an active ephemeral profile |
| PrivacyOrchestrators.SessionPrivacyOrchestrator.CanActivateTab | src/core/session/session_privacy_orchestrator.cpp:22-36 | only existing tabs of the current mode can be shown |
| PrivacyOrchestrators.SessionPrivacyOrchestrator.ActivateTab | src/core/session/session_privacy_orchestrator.cpp:46-51 | shows a tab exactly when it is of the current mode |
| PrivacyOrchestrators.SessionPrivacyOrchestrator.CloseTab | src/core/session/session_privacy_orchestrator.cpp:61-103 | in private mode closes private tabs only, and shows another private tab or a new one when the shown one goes |
| PrivacyOrchestrators.SessionPrivacyOrchestrator.CloseActiveTab | src/core/session/session_privacy_orchestrator.cpp:53-59 | the same for the active tab; answers false exactly without one or when that close is refused |
| PrivacyOrchestrators.SessionPrivacyOrchestrator.ReopenClosedTab | src/core/session/session_privacy_orchestrator.cpp:105-108 | reopens the newest record of the current mode only, and answers its new id exactly when the tab opened |
| PrivacyOrchestrators.SessionPrivacyOrchestrator.EnterPrivateMode | src/core/session/session_privacy_orchestrator.cpp:110-134 | always succeeds from a safe state: fresh ephemeral profile, engine in ephemeral mode, a new private tab shown |
| PrivacyOrchestrators.SessionPrivacyOrchestrator.ExitPrivateMode | src/core/session/session_privacy_orchestrator.cpp:136-187 | the wipe first and the persistent tab last, with the loop over private tabs |
| CaptureRestore.CaptureOfRestore | src/core/session/session_persistence.cpp:72-179 | for every snapshot, repeated and missing ids included, capturing what it was restored to gives its normal form |
| CaptureRestore.NormalFormStable | src/core/session/session_persistence.cpp:72-179 | the normal form is its own normal form |
| CaptureRestore.CaptureRestoreRoundTrip | src/core/session/session_persistence.cpp:72-179 | capture, restore into a new session and capture again gives the normal form of the first capture; a further round changes nothing |
| SessionRestart.RestartAfterCrash | src/core/session/session_persistence.cpp:72-319 | after a crash anywhere in the save of a capture over another one, under the conditions of SaveSafeExactly, loading, restoring into a new session and capturing gives the normal form of the old or of the new capture |
| SessionRestart.NoPrivateTabComesBack | src/core/session/session_persistence.cpp:72-319 | whatever fails in a save and wherever it is cut short: no restored tab is private or has the id of a private tab of the session it was captured from, unless it comes from an earlier backup |
| CaptureRestore.NormalFormKeeps | src/core/session/session_persistence.cpp:72-179 | for tabs with urls that are no placeholders the normal form keeps, in order, the first record of every id that has a url, the active tab or else the first, and all focus items with dangling tab ids cleared |
| CaptureRestore.NothingSkipped | src/core/session/session_persistence.cpp:153-179 | a restore skips no record exactly when ids are distinct and no id or url is missing |
| CaptureRestore.SessionPersistence.CaptureSnapshot | src/core/session/session_persistence.cpp:72-121 | the loops leave out private tabs and items bound to them and choose the first saved tab when the active one is private: the snapshot holds the persistent part of the session as the next row says |
| CaptureRestore.CaptureHoldsPersistentPart | src/core/session/session_persistence.cpp:72-121 | for every session and queue the records are, position by position, the persistent tabs with id, url, title, workspace and lifecycle; the active id is that of the shown tab if persistent, else of the first persistent tab; the items are those whose tab id names no private tab |
| CaptureRestore.SessionPersistence.RestoreSession | src/core/session/session_persistence.cpp:123-179 | opens the missing tabs, shows the target, queues the items and clears ids of tabs that did not open |
| JsonLaws.QuoteReads | src/core/storage/json_helper.cpp:52-75 | every string of any characters is what its quoted and escaped form is read as, whatever follows |
| JsonLaws.ValueExtends | src/core/storage/json_helper.cpp:101-317 | a value that was read, a number at the end of the input excepted, is the same and ends at the same place when more input is appended |
| JsonLaws.DecimalValueReads | src/core/storage/json_helper.cpp:291-317 | a printed counter before a comma is one number, the one std::stod makes of it |
| JsonParsers.EscapeJsonString | src/core/storage/json_helper.cpp:52-75 | the loop appends the quoted form |
| JsonParsers.JsonParser.ParseString | src/core/storage/json_helper.cpp:134-177 | reads the string the grammar function gives and stops where it stops, with the escapes and the hexadecimal forms |
| JsonParsers.JsonParser.ParseNumber | src/core/storage/json_helper.cpp:291-317 | takes the lexeme of sign, digits, fraction and exponent and leaves its value to std::stod |
| JsonParsers.JsonParser.ParseObject | src/core/storage/json_helper.cpp:188-228 | reads the members in order up to the closing brace, a trailing comma or a missing colon refused |
| JsonParsers.JsonParser.ParseArray | src/core/storage/json_helper.cpp:230-261 | reads the items in order up to the closing bracket |
| JsonParsers.JsonParser.ParseValue | src/core/storage/json_helper.cpp:101-114 | reads the value the grammar function gives and leaves the position behind it, for every input |
| JsonParsers.JsonParser.Parse | src/core/storage/json_helper.cpp:83-90 | accepts a value with only white space after it, and ends on every input |
| JsonGrammar.ReadExactly | src/core/storage/json_helper.cpp:83-317 | for every text and value: the parser reads the text as this value exactly when it is a tree of that value in a grammar of its own, of words, number lexemes std::stod accepts, strings of pieces, items and members with space anywhere between, and nothing after it but space |
| JsonGrammar.StringComplete | src/core/storage/json_helper.cpp:134-177 | a quoted sequence of pieces (plain characters, escapes, and four hexadecimal digits) is read as their values, whatever follows |
| JsonGrammar.LexemeComplete | src/core/storage/json_helper.cpp:291-317 | a lexeme of the number grammar is taken whole when nothing that could belong to a number follows |
| JsonLaws.Utf8Reads | src/core/storage/json_helper.cpp:116-132 | the one, two or three bytes of a code point below 0x10000 decode to it by the rules of UTF-8 |
| JsonLaws.HexDigitsInAnyCase | src/core/storage/json_helper.cpp:155-164 | which characters are hexadecimal digits, of which value, in either case |
| JsonLaws.UnicodeEscapeReads | src/core/storage/json_helper.cpp:153-167 | four digits after a backslash and u are the code point they name, first digit highest |
| JsonLaws.ShortEscapeReads | src/core/storage/json_helper.cpp:143-171 | which character each one-letter escape stands for; any other one for itself |
| DocumentLaws.DocumentReads | src/core/session/session_persistence.cpp:181-251 | the printed document of any snapshot parses to its tree, through white space, nesting, nulls and escapes |
| DocumentLaws.RoundTrip | src/core/session/session_persistence.cpp:181-299 | over all strings, when std::stod reads the version number that was printed, reading back what was written gives the version 1 snapshot less its records without an id, and refuses any other version |
| DocumentLaws.RoundTripExact | src/core/session/session_persistence.cpp:181-299 | the snapshot itself comes back exactly when it has version 1 and no record lacks an id |
| DocumentLaws.TornIsNoObject | src/core/session/session_persistence.cpp:46-68 | no prefix that lacks the closing brace parses to an object, whatever std::stod does |
| DocumentLaws.TornDocuments | src/core/session/session_persistence.cpp:46-68 | of the prefixes of a version 1 document exactly the whole one and the one without the last line break are valid, and both read the same |
| DocumentReading.AcceptedExactly | src/core/session/session_persistence.cpp:46-68 | any text, printed by the serializer or not, is accepted exactly when it parses to an object whose first members of these names are a version number from 1 to below 2, a boolean, a text or null, and two arrays |
| DocumentReading.FindExactly | src/core/storage/json_helper.cpp:10-16 | a lookup gives the value of the first member of this name and of no later one |
| DocumentReading.ReadIsInMembers | src/core/session/session_persistence.cpp:253-299 | and then every field of the snapshot is that of its member: records in order from exactly the objects with a non-empty id, texts from text members or empty, enumerators by name or their default |
| SessionSerializer.Serialize | src/core/session/session_persistence.cpp:181-251 | the loops print the document whose reading is proved |
| SessionSerializer.Deserialize | src/core/session/session_persistence.cpp:253-299 | the parse, the check and the loops that skip what is no object or has no id give the specified snapshot |
| AtomicFileStores.AtomicFileStore.AtomicWriteFile | src/core/storage/atomic_file_store.cpp:44-154 | for every combination of faults, the disk passes through exactly the listed states, and result and disk are as the next row says |
| AtomicFileStores.WriteReports | src/core/storage/atomic_file_store.cpp:44-154 | fault by fault: success exactly when directory, open and write work and the rename or the removal does; which fault gives which error; a backup reported exactly when one was asked for, an old target was there and its copy completed, and then it holds the old target; on the rename path success exactly with the content in the target |
| AtomicFileStores.AtomicFileStore.Replace | src/core/storage/atomic_file_store.cpp:132-150 | one step by rename, or the copy byte by byte and the removal of the temporary file |
| AtomicFileStores.AtomicFileStore.ReadFileWithBackupRecovery | src/core/storage/atomic_file_store.cpp:156-200 | the valid target, else the valid backup, else failure, with source and content |
| CrashSafety.StatesClassified | src/core/storage/atomic_file_store.cpp:44-154 | every state of a write has the old target and the old or a partly copied backup, or the new target, or a first part of the content in the target during the fallback |
| CrashSafety.RenamePathSafe | src/core/storage/atomic_file_store.cpp:125-137 | from a valid or missing target, every state of a write whose rename works recovers exactly what was recovered before or the new content |
| CrashSafety.RunsSafe | src/core/storage/atomic_file_store.cpp:44-200 | from a valid or missing target, over any sequence of writes of valid contents whose renames work, each cut short anywhere, recovery gives what it gave at first or one complete content written since |
| CrashSafety.SafeWhenTargetValid | src/core/storage/atomic_file_store.cpp:126-130 | when the rename works, a readable disk stays readable throughout a write exactly when the write does not copy an invalid target over the backup: for any other faults, with or without a backup, and for a copy that breaks off when the empty file is not valid |
| CrashSafety.OverwrittenBackup | src/core/storage/atomic_file_store.cpp:126-130 | the states in which the first characters of an existing target, valid or not, have replaced the backup |
| CrashSafety.SuccessMeansWritten | src/core/storage/atomic_file_store.cpp:132-150 | success is reported without the content in the target exactly when the rename fails, the fallback copy falls short and the temporary file is removed without error |
| CrashSafety.SuccessWithoutContent | src/core/storage/atomic_file_store.cpp:142-149 | one such write |
| CrashSafety.SaveCrashSafe | src/core/session/session_persistence.cpp:301-319 | a crash anywhere in a save loads the old or the new session unless the fallback copies over the target and neither the backup that was made nor the one that was left serves |
| CrashSafety.SaveRenameSafe | src/core/session/session_persistence.cpp:301-319 | on the rename path, the first save included, a crash anywhere loads what was loaded before or the new session |
| CrashSafety.SaveSafeExactly | src/core/storage/atomic_file_store.cpp:126-150 | a save is safe throughout exactly when it never reaches the fallback copy or a backup serves: one copied in full, or up to its last line break, or an earlier one left alone that reads as the old or the new session |
| CrashSafety.BothSessionsLost | src/core/storage/atomic_file_store.cpp:126-150 | a save of any session over any other after which nothing can be loaded, although it reports success: the rename fails and both copies break off |
| CrashSafety.SaveOverTornExactly | src/core/storage/atomic_file_store.cpp:126-150 | a save that finds an invalid file, with the session in the backup, is safe throughout exactly when it never gets to the backup, makes none, or the copy to it never starts: for any faults, the failing rename included |
| CrashSafety.NextSaveLosesBoth | src/core/storage/atomic_file_store.cpp:126-150 | two saves: the first breaks off in the fallback and still leaves the old session, the second has no fault and a crash in it leaves neither |
| CrashSafety.SessionSurvives | src/core/session/session_persistence.cpp:301-319 | saving with a backup, a crash at any point loads the old or the new session, whatever fails, unless both the rename and the copy to the backup fail |
| CrashSafety.LoadsOneOf | src/core/session/session_persistence.cpp:301-319 | whatever fails and wherever a save is cut short, what can be loaded is the old session, the new one, the one of the earlier backup, or nothing |
| SessionFiles.SaveToFile | src/core/session/session_persistence.cpp:301-308 | every state the store really passed through loads the old or the new session under those conditions; answers true exactly when the write got through, and then, on the rename path, the document is in the file |
| SessionFiles.LoadFromFile | src/core/session/session_persistence.cpp:310-319 | reads the recovered document, none when neither file is valid |
| SessionFiles.WasLastShutdownClean | src/core/session/session_persistence.cpp:321-328 | clean when nothing can be loaded, else what the document says |
| NetworkTraces.TraceIsWindow | src/devtools/network/network_trace.cpp:99-148 | after any run of Add and Clear the trace is exactly the most recent events since the last Clear, as many as the limit allows, and dropped plus kept is the number added |
| NetworkTraces.WindowNumbers | src/devtools/network/network_trace.cpp:124-141 | the sequence numbers of the kept events are consecutive and end at the counter minus one, and the limit is never passed |
| NetworkTraces.KeptEventsAreSafe | src/devtools/network/network_trace.cpp:124-141 | with a redacting policy every kept event of any run shows no value of a sensitive header |
| NetworkTraces.KeptEventsAreDated | src/devtools/network/network_trace.cpp:124-141 | with either policy every event kept in a run with a positive clock is dated |
| NetworkTraces.KeptEventsAreThose | src/devtools/network/network_trace.cpp:124-148 | every kept event of any run is the one added at its place since the last Clear: the same but for number, date and header values; its own date when positive, else the clock's; as many headers with the same names in order, and another value only under a sensitive name with a redacting policy |
| NetworkTraces.SensitiveInAnyCase | src/devtools/network/network_trace.cpp:566-580 | a header name is sensitive exactly when it is one of the listed ones in any case of its letters |
| NetworkTraces.NetworkTraceBuffer.AddEvent | src/devtools/network/network_trace.cpp:124-141 | redacts, dates and numbers the event, drops the oldest ones with the loop, and appends it with all other fields as they came |
| NetworkTraces.NetworkTraceBuffer.MakeRoom | src/devtools/network/network_trace.cpp:134-137 | the loop drops exactly as many of the oldest as needed and counts them |
| NetworkTraces.NetworkTraceBuffer.ClearEvents | src/devtools/network/network_trace.cpp:143-148 | back to the empty trace, counters included |
| NetworkTraces.NetworkTraceBuffer.RedactSensitiveHeaders | src/devtools/network/network_trace.cpp:566-588 | replaces exactly the values of sensitive headers, names compared without case |
| RequestSummaries.AggregateRequests | src/devtools/network/network_trace.cpp:162-287 | the one pass through the index map gives the plain grouping, one summary per request in order of first events, each the fold of its own kept events, overlaid with the newest filter decision about its request |
| RequestSummaries.GroupRequests | src/devtools/network/network_trace.cpp:162-274 | the grouping before the overlay, with the index map of the source |
| RequestSummaries.BlockedByNewest | src/core/network/filter_decision_log.cpp:40-48 | the overlay changes nothing but the filter fields: a summary is marked as blocked exactly when the newest decision about its request blocked it, and then with that decision's rule source and the text of its layer |
| RequestSummaries.GroupedSnoc | src/devtools/network/network_trace.cpp:168-274 | one more event adds a summary at the end or changes the summary of its own request alone |
| RequestSummaries.KeptAt | src/devtools/network/network_trace.cpp:167-171 | with a tab filter exactly the events of other tabs are left out, those of no tab are kept |
| RequestSummaries.EventsOfAt | src/devtools/network/network_trace.cpp:174-214 | a summary is made of the events at the positions of its request id |
| RequestSummaries.RequestIdsDistinct | src/devtools/network/network_trace.cpp:165-214 | no request has two summaries |
| RequestSummaries.BytesConserved | src/devtools/network/network_trace.cpp:162-287 | the bytes of all summaries add up to the bytes of all kept events |
| RequestSummaries.SummaryTotals | src/devtools/network/network_trace.cpp:190-272 | a summary's bytes are the sum over its events and its state is that of the last finished or failed one, Active without any |
| RequestSummaries.SummarySpan | src/devtools/network/network_trace.cpp:244-254 | for dated events a summary starts at the earliest, ends at the latest and lasts the time between |
| RequestSummaries.EverySummarySpans | src/devtools/network/network_trace.cpp:124-287 | after any run with a positive clock, with either policy, every summary of the trace spans exactly the kept events of its request |
| RequestSummaries.SummaryOwner | src/devtools/network/network_trace.cpp:216-241 | status, connection, tab and attribution of a summary are those of the last of its events that has its own |
| RequestSummaries.SummaryTarget | src/devtools/network/network_trace.cpp:222-227 | the url is that of the last redirect or else the first one; the method that of the last start or else of the first event, GET without one |
| RequestSummaries.SummaryContent | src/devtools/network/network_trace.cpp:232-272 | headers, protocol and preview are those of the last event that may set them and has any; the error is that of the last failure or else of the first event |
| RequestSummaries.FindRequest | src/devtools/network/network_trace.cpp:410-419 | finds the overlaid summary of a request over all tabs exactly when the trace has an event of it |
| RedactUrl.RedactSensitiveUrl | src/devtools/network/network_trace.cpp:590-653 | the searches, the replacement in place and the loop over the query compute the redaction by parts that the laws are about |
| RedactUrl.RedactQuery | src/devtools/network/network_trace.cpp:611-649 | the cursor loop joins the redacted pairs of the split query |
| RedactUrl.TextOfParts | src/devtools/network/network_trace.cpp:603-612 | the parts of a URL make up the URL |
| RedactUrl.PartsOfText | src/devtools/network/network_trace.cpp:603-612 | any head, pairs and fragment are the parts of their text |
| RedactUrl.SensitiveValuesHidden | src/devtools/network/network_trace.cpp:72-90 | whatever the URL, no pair of the result shows the value of a sensitive key |
| RedactUrl.SensitiveKeyInAnyCase | src/devtools/network/network_trace.cpp:72-90 | a query key is sensitive exactly when, in any case, it is one of the eleven listed |
| RedactionLaws.RedactionByParts | src/devtools/network/network_trace.cpp:590-653 | when the first "://" precedes the first "?" or there is none, number and order of pairs, pairs without a sensitive key and the fragment are unchanged, and user information goes from the head alone |
| RedactionLaws.PairsKept | src/devtools/network/network_trace.cpp:620-649 | then each pair keeps its key, and its value exactly unless the key is sensitive |
| RedactionLaws.Idempotent | src/devtools/network/network_trace.cpp:590-653 | for those URLs redaction is idempotent and leaves no user information in sight |
| RedactionLaws.WorksByPartsExactly | src/devtools/network/network_trace.cpp:592-602 | redaction works part by part exactly for those URLs and for those in which what is taken for user information is missing, redacted already, or inside the value of one sensitive pair |
| RedactionTwice.IdempotentExactly | src/devtools/network/network_trace.cpp:590-653 | a second pass changes nothing exactly when the first "://" precedes the query, or when the first pass leaves nothing to find in the URL: after the first "://" outside sensitive values, up to the next '/', '?' or '#' outside them, no '@' but the one the first pass rewrote or one behind redacted text |
| RedactionTwice.IdempotentInSight | src/devtools/network/network_trace.cpp:590-653 | a second pass changes nothing when the first "://" and the end of the authority after it both lie outside sensitive values |
| MaskedText.ShowsExactly | src/devtools/network/network_trace.cpp:603-653 | which user information is in sight once sensitive values are hidden, read off the text before |
| RedactionLaws.PairLost | src/devtools/network/network_trace.cpp:592-602 | a URL of which redaction loses a pair |
| RedactionLaws.SecondPassChanges | src/devtools/network/network_trace.cpp:590-653 | a URL whose first "://" is hidden by the first pass, so that the second one finds another |
| RedactionTwice.SecondPassReachesFurther | src/devtools/network/network_trace.cpp:590-653 | a URL in which the first pass hides the end of the authority, so that the second one takes later pairs for user information; both results are given |
| Transfers.TransferBroker.RegisterTransfer | src/core/transfers/transfer_broker.cpp:53-79 | files a new transfer in progress, clamped and dated, and owes one start notification; refused for an empty or known id |
| Transfers.TransferBroker.UpdateTransferMetadata | src/core/transfers/transfer_broker.cpp:81-112 | non-empty fields of a running transfer; refused once it has ended |
| Transfers.TransferBroker.UpdateTransferProgress | src/core/transfers/transfer_broker.cpp:114-138 | clamped numbers of a running transfer, which stays paused if it was |
| Transfers.TransferBroker.SetTransferControl | src/core/transfers/transfer_broker.cpp:140-148 | controls only for known transfers |
| Transfers.TransferBroker.ClearTransferControl | src/core/transfers/transfer_broker.cpp:150-153 | forgets the controls of one transfer and nothing else |
| Transfers.TransferBroker.CompleteTransfer | src/core/transfers/transfer_broker.cpp:155-176 | ends a running transfer as received in full, drops its controls, and owes one finish notification |
| Transfers.TransferBroker.FailTransfer | src/core/transfers/transfer_broker.cpp:178-197 | the same with the error message |
| Transfers.TransferBroker.CancelTransfer | src/core/transfers/transfer_broker.cpp:199-226 | the same with the cancel control taken before it is dropped, called before the notification |
| Transfers.TransferBroker.PauseTransfer | src/core/transfers/transfer_broker.cpp:228-253 | only from in progress |
| Transfers.TransferBroker.ResumeTransfer | src/core/transfers/transfer_broker.cpp:255-279 | only from paused |
| TransferLaws.EndedAsWon | src/core/transfers/transfer_broker.cpp:155-226 | over all interleavings the item of an ended transfer is what the one winning call made of it: Completed, Failed or Cancelled as the call was Complete, Fail or Cancel, ended at the time it brought, with its message for a failure and the message it had otherwise |
| TransferLaws.EndingTells | src/core/transfers/transfer_broker.cpp:155-226 | the effects of an ending: the cancel control that was set, for a cancel, then the finish with the stored item |
| TransferLaws.ControlsAreAsSet | src/core/transfers/transfer_broker.cpp:140-153 | at any point of any run the controls of a transfer are the last ones set, unless forgotten or the transfer has ended since |
| TransferLaws.PauseDoes | src/core/transfers/transfer_broker.cpp:228-253 | at any point of any run a pause succeeds exactly in progress, leaves the transfer Paused at speed 0, calls the pause control that was set and then tells |
| TransferLaws.ResumeDoes | src/core/transfers/transfer_broker.cpp:255-279 | a resume succeeds exactly when Paused, leaves it InProgress, calls the resume control that was set and then tells |
| TransferLaws.ProgressDoes | src/core/transfers/transfer_broker.cpp:114-138 | each number of a report comes to its own field, none below 0 |
| TransferLaws.MetadataDoes | src/core/transfers/transfer_broker.cpp:81-112 | each text that is not empty comes to its own field |
| TransferLaws.RegisterDoes | src/core/transfers/transfer_broker.cpp:53-79 | accepted exactly for a new non-empty id; the item as it came, in progress, dated and clamped |
| TransferLaws.SectionLeavesOthers | src/core/transfers/transfer_broker.cpp:53-279 | a call changes and tells of the transfer it names and of no other; a refused one does nothing |
| TransferRuns.TransferExactlyOnce | src/core/transfers/transfer_broker.cpp:53-279 | for every interleaving of critical sections and effects of any threads: owed and delivered start notifications number one exactly when registered, finish notifications one exactly when ended, exactly one of Complete, Fail and Cancel has succeeded then and none before, and the cancel control is called at most once, only when cancelled |
| TransferRuns.EffectsConserved | src/core/transfers/transfer_broker.cpp:53-350 | effects are neither lost nor repeated between a critical section and their delivery |
| TransferRuns.EndedIsFinal | src/core/transfers/transfer_broker.cpp:16-20 | an ended transfer is the same in every later state of every continuation |
| TransferRuns.ObserversHearFinalItem | src/core/transfers/transfer_broker.cpp:155-226 | a finish notification that was delivered carries the item stored then and ever after |
| TransferRuns.ItemsSettled | src/core/transfers/transfer_broker.cpp:53-279 | in every reachable state byte counts are not negative, ended transfers have no speed, and a completed one of known size is received in full |
| TransferOrder.EmittedInOrder | src/core/transfers/transfer_broker.cpp:53-279 | in the order of the critical sections nothing about a transfer comes before its start or after its finish |
| TransferOrder.HeardInOrderExactly | src/core/transfers/transfer_broker.cpp:53-279 | once everything is delivered, observers have heard of a transfer in order exactly when its finish was never delivered before another notice about it that was owed, and no other notice about it before its start; calls of its control may come anywhere |
| TransferOrder.AllHeardInOrderExactly | src/core/transfers/transfer_broker.cpp:53-279 | over all transfers: observers heard of none before its start or after its finish exactly when every notice was delivered in turn |
| TransferOrder.HeardInOrder | src/core/transfers/transfer_broker.cpp:53-279 | when no call about a transfer enters while notices about it are owed, whatever the calls about others do, observers hear of its start first and of its finish last, at every point of the run |
| TransferOrder.UpdateHeardAfterFinish | src/core/transfers/transfer_broker.cpp:114-176 | a run of two threads with overlapping calls in which an update is heard after the finish |
| TransferOrder.UpdateHeardAfterOwnFinish | src/core/transfers/transfer_broker.cpp:228-253 | a run of one thread whose pause control completes the transfer: the update of the pause is heard after the finish |
| SyncMerge.LocalSyncProvider.PushRecords | src/core/sync/local_filesystem_sync.cpp:45-70 | the loop merges the batch record by record, keeps the latest timestamp and succeeds |
| SyncMerge.LocalSyncProvider.PullRecords | src/core/sync/local_filesystem_sync.cpp:72-88 | lists exactly the stored records newer than the timestamp, each once, oldest first |
| SyncMerge.StoredIsLastMaximal | src/core/sync/local_filesystem_sync.cpp:53-62 | a record is stored exactly when its non-empty id was pushed, and then it is the last one of maximal version and timestamp |
| SyncMerge.StoredIsHighest | src/core/sync/local_filesystem_sync.cpp:53-62 | no pushed record of its id has a higher version than the stored one, or the same and a later timestamp |
| SyncMerge.PushTwice | src/core/sync/local_filesystem_sync.cpp:45-70 | pushing a batch twice is pushing it once, from any store |
| SyncMerge.PushInBatches | src/core/sync/local_filesystem_sync.cpp:45-70 | cutting a push into batches makes no difference |
| SyncMerge.ConvergesExactly | src/core/sync/local_filesystem_sync.cpp:53-66 | the store depends only on the set of records pushed, not on order or repetition, exactly when no two maximal records of one id differ |
| SyncMerge.PushOrderMatters | src/core/sync/local_filesystem_sync.cpp:53-62 | two records of one id, version and timestamp of which the store keeps the one pushed last |
| SyncMerge.LastSyncIs | src/core/sync/local_filesystem_sync.cpp:64-66 | the sync timestamp is the latest of the store's and the pushed ones with an id |
| SyncMerge.ExchangeConverges | src/core/sync/local_filesystem_sync.cpp:45-88 | two stores that push what the other lists end with the same records exactly when they hold no different records of one version and timestamp and cover each other's records of timestamp zero, which are never listed |

## Left out

- The CEF adapter and everything else under `apps/desktop/`: the engine is the synchronous port, so the refinement says
  nothing about surfaces that close later.
- Observers of the session, the trace and the orchestrator: notifications do nothing here, so calls from inside an observer
  are not modelled, nor are lifetimes of pointers. In the transfer broker a notification is one step for all observers.
- PrivateMode.ModeSafety: callers open tabs of the current mode, keep profile calls for normal mode, and leave it to the
  orchestrator to select an ephemeral profile; nothing is said about callers that do otherwise.
- Counters (activation, restored tabs, sequence numbers, bytes) are unbounded; the source has 64 bits.
- DocumentLaws.RoundTrip: doubles are reals, and `std::stod` is a parameter that is only asked to read the version number of
  the document at hand.
- JsonParsers.JsonParser.ParseValue: the depth of recursion is not bounded, as in the source; running out of stack is not
  modelled.
- The Windows branch of the file store, `fsync`, power loss and reordering of writes: crashes are crashes of the process, and
  rename is atomic. Error texts are not modelled, only which error it is.
- AtomicFileStores.AtomicFileStore.ReadFileWithBackupRecovery: a file that cannot be read counts as missing.
- ProfileManagers.ProfileManager.CreateProfile: storage paths, names and the secrets of a profile are left out; a profile is
  its id and its type.
- The lists of the profile manager, the transfer broker and the sync manifest, which only copy, and the sprint timer.
- RequestSummaries.AggregateRequests: the filter decision log is a parameter, so its bound of entries is not modelled;
  `QueryRequests` and the HAR and obtrace exports are left out.
- SyncMerge.LocalSyncProvider.PushRecords: the store is held in memory, as with an empty directory; its disk format does not
  unescape what it escapes, so no round trip holds there. The device id is left out.
- SyncMerge.LocalSyncProvider.PullRecords: `std::sort` stands as insertion at the place by timestamp; the order among equal
  timestamps is not promised by either.
- Transfers.TransferBroker.RegisterTransfer: the mutex is the granularity of the steps, and a method models one critical
  section and returns what its thread does after it; adding and removing observers and the file broker are left out.
- History, bookmarks, settings, workspaces, permissions, content filters and the command palette.
