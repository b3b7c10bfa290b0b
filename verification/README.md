# Verified model of WimForge's history, saving, editing and provisioning logic

This Dafny 4.11 project models the parts of WimForge where a wrong branch loses
a user's work, and proves what those parts are for. `dafny verify dfyconfig.toml`
checks everything.

- **Selective undo** (`Json`, `MergePatch`, `MergePatchLaws`, `SelectiveUndo`):
  the merge patches an action stores, the guarded apply that undoes it later,
  and what that does to every path of any later document.
- **The action journal** (`Journal`, `ActionHistory`, `JournalLaws`): the
  hash-chained event log, the commands that append to it, and the chains of
  compensations.
- **The open project** (`ProjectSession`, `SaveQueueLaws`, `SessionLaws`,
  `HistoryLedger`, `HistoryRuns`, `ProjectController`): edits, background saves, undo, redo,
  restore and lanes as one state machine whose runs interleave user steps,
  worker steps and failures, among them saves that reach the disk and are then
  reported as failed; and the controller's methods, each proved to be one step
  of it.
- **Workspace saving** (`WorkspaceQueue`): coalescing, pause and retry.
- **Package selection** (`PackageClosure`): the dependency closure.
- **Path edits and field paths** (`Pointer`, `PathEdit`, `PathEditLaws`).
- **Response files** (`ResponseFiles`): the recursive include expander.
- **Device provisioning** (`DeviceConfig`, `SettingPatches`, `AnswerFile`,
  `AnswerFileLaws`): the inventory indexes, the setting patches, the tree of
  elements a profile renders to, and the check made of it.

`Text` and `Collections` hold what several of them use.

The farthest-reaching results are about whole runs. `HistoryRuns.MovementDecidesProject`
says that two runs over one initial document end with the same project exactly
when the actions in force at their ends moved every path alike, whatever was
saved, undone, redone, refused and repaired on the way, and in whatever order.
`HistoryRuns.UndoneIsNeverDone` draws the conclusion selective undo is for:
undoing an action under later work gives what that work alone would have given;
and `HistoryRuns.EverythingUndone` is the case where nothing is left in force.
`SessionLaws.EditsAreConserved` says that edits made while others are being saved
are neither lost nor reordered.
All run laws start from any state that satisfies `HistoryRuns.Invariant`, a newly
opened project being one (`HistoryRuns.OpenedIsAccounted`), and which failures end
that invariant is stated exactly, step by step (`HistoryRuns.StepKeepsExact`).

Imperative code is modelled as methods and classes; each is proved equal to a
function, and the lemmas are about the functions. A loop over a JSON object's
members visits them in an arbitrary order.

## Where the code does less than its promise

Each of these is the code's behaviour, kept as it is, with the exact condition:

- An action can be undone right away precisely when the null members of its two
  documents lie in what they share (`SelectiveUndo.ImmediateUndoExact`), because a
  null in a patch means removal; adding a null defeats the undo
  (`SelectiveUndo.AddedNullDefeatsUndo`). All selective-undo laws hold under that
  condition.
- The history's apply is RFC 7396 precisely on compatible inputs
  (`MergePatchLaws.ApplyIsRfcExact`); `MergePatchLaws.ApplyDiffersFromRfc` is an
  input where it is not; an accepted undo always is.
- A save can write the project file and then fail. In the background the reload
  then takes the new document, of which the journal knows nothing
  (`HistoryRuns.UnconfirmedSaveIsLost`). The steps after which the journal is no
  longer about the project are precisely a failed save that does not end with the
  document before the edit, a change that is not recorded, and a toggle left
  without its document and its repair (`HistoryRuns.StepKeepsExact`).
- In an undo, redo or restore such a save leaves the new document on disk and the
  old one in memory (`SaveQueueLaws.UnconfirmedToggleLosesAgreement`), and so does a
  failed save whose reload fails (`SaveQueueLaws.StaleReloadLosesAgreement`). Memory
  and disk part precisely there (`SaveQueueLaws.StepKeepsLinkedExact`), and the next
  save that succeeds brings them together again (`SaveQueueLaws.SaveRejoins`).
- A refused undo is neutral for the project, but its two journal events no longer
  replay to the project precisely when the guard refused it
  (`HistoryRuns.RefusalBreaksReplay`; `HistoryRuns.ConflictingUndoBreaksReplay` is a
  run that does it).
- An action recorded from the command line names no documents, and restoring it
  makes its patch the project (`HistoryRuns.RestoreTakesPatch`). That is the document
  it left precisely when the patch rewrote everything
  (`HistoryRuns.RestorePointExact`); `HistoryRuns.RestoredPatchLosesMember` is an
  action where it is not.
- Reading a printed pointer loses the last key's trailing whitespace, and nothing
  else (`Pointer.TokensOfPrint`, `Pointer.TrailingSpaceIsLost`).
- Switching a package off leaves another one without its dependency precisely when
  one needs it (`PackageClosure.DisablingKeepsClosedExact`,
  `PackageClosure.DisablingOpensProfile`).
- A patched profile passes the check precisely when every setting that leads to or
  through a patched place has an element there that is patched or held the value
  (`AnswerFileLaws.CheckPassesExact`). A setting below such a place fails it
  (`AnswerFileLaws.DeeperSettingFailsCheck`), and so does one with attributes and
  another value (`AnswerFileLaws.AttributedSettingFailsCheck`).
- An empty path after `--response-file` or `--config` is dropped and the flag kept as
  an argument (`ResponseFiles.EmptyPathLeavesFlag`); a flag is left precisely when a
  list reached through includes has such a path (`ResponseFiles.FlagIsLeftExact`).

## Model

| member | source | states |
|---|---|---|
| MergePatch.CreateMergePatchObject | src/core/ActionHistory.cpp:129-164 | The recursive diff with its two loops builds exactly the patch the laws below are about. |
| MergePatch.ApplyMergePatchObject | src/core/ActionHistory.cpp:864-878 | The member-by-member overwrite computes the merged document whatever order the members are visited in. |
| MergePatch.CollectMergePatchConflicts | src/core/ActionHistory.cpp:166-208 | The collector appends one escaped pointer for each conflicting path below its prefix, every such path, each once. |
| MergePatch.ApplyMergePatchGuarded | src/core/ActionHistory.cpp:885-899 | Applies exactly when there is no conflict; otherwise leaves the document alone and reports every conflict without duplicates. |
| MergePatch.RefusedHasConflict | src/core/ActionHistory.cpp:166-208 | Whatever the guard refuses has a conflicting path to report. |
| MergePatch.ConflictRefuses | src/core/ActionHistory.cpp:166-208 | Any conflicting path makes the guard refuse. |
| MergePatchLaws.RoundTripExact | src/core/ActionHistory.cpp:129-164 | Applying the patch from one document to another gives the other precisely when the change wrote no null member. |
| MergePatchLaws.RoundTrip | src/core/ActionHistory.cpp:129-164 | For a null-free target the generated patch produces it exactly, from any document. |
| MergePatchLaws.RoundTripUpToNulls | src/core/ActionHistory.cpp:129-164 | For every target the generated patch produces it up to null members. |
| MergePatchLaws.PatchEmptyExact | src/core/ActionHistory.cpp:129-164 | The patch to a null-free document is empty precisely when nothing changed. |
| MergePatchLaws.PatchEmptyForAllExact | src/core/ActionHistory.cpp:147-160 | For any two documents the patch is empty precisely when the change only added null members, at any depth. |
| MergePatchLaws.PatchFromScratch | src/core/ActionHistory.cpp:147-155 | A patch made against nothing is the document itself precisely when that is null-free. |
| MergePatchLaws.ApplyIsRfcExact | src/core/ActionHistory.cpp:864-878 | The apply agrees with MergePatch of section 2 of RFC 7396 precisely when no object patch holding a null meets a non-object. |
| MergePatchLaws.ApplyDiffersFromRfc | src/core/ActionHistory.cpp:869-874 | A concrete patch on which the two differ. |
| MergePatchLaws.PatchIsTargetExact | src/core/ActionHistory.cpp:129-164 | The patch to a document is that document itself precisely when the change kept no member, removed none and added no null, at any depth. |
| SelectiveUndo.GuardExact | src/core/ActionHistory.cpp:166-208 | The guard accepts precisely the documents that still agree with the action at, and on the way to, every path it changed. |
| SelectiveUndo.ReportExact | src/core/ActionHistory.cpp:172-207 | The reported paths are precisely the changed paths that no longer agree and the objects on the way that are gone. |
| SelectiveUndo.UndoFrame | README.md:86 | After an accepted undo every path at or below a change reads as before the action, objects above are kept, and every other path reads as it did. |
| SelectiveUndo.RedoRestores | src/core/ActionHistory.cpp:885-899 | After an accepted undo of any later document the redo is accepted and gives that document back. |
| SelectiveUndo.UnguardedPairExact | src/core/ActionHistory.cpp:864-878 | Writing the undo and then the redo without the guard restores a document precisely when the guard would have accepted it. |
| SelectiveUndo.ImmediateUndoExact | src/core/ActionHistory.cpp:129-208 | An action is undone at once, accepted and exact, precisely when its documents' nulls lie in what they share. |
| SelectiveUndo.AddedNullDefeatsUndo | src/core/ActionHistory.cpp:156-159 | An action that adds a null cannot be undone at once. |
| SelectiveUndo.UndoIsNeverDoing | README.md:86 | An action can be undone under later work precisely when that work could have been done without it, and then both give the same document. |
| SelectiveUndo.AcceptedUndoIsRfc | src/core/ActionHistory.cpp:885-899 | Wherever the guard accepts, the apply computes RFC 7396's MergePatch. |
| SelectiveUndo.UndoKeepsNullFree | src/core/ActionHistory.cpp:885-899 | An accepted undo brings no null into a null-free document. |
| SelectiveUndo.UndoMovesCell | src/core/ActionHistory.cpp:885-899 | Path by path an accepted undo moves the content from what the action left to what it found, or touches nothing the action moved. |
| SelectiveUndo.DifferenceHasPath | src/core/ActionHistory.cpp:129-164 | Two different documents differ at some smallest path. |
| Pointer.PathTokens | src/cli/CliRunner.cpp:545-569 | The token loop computes the tokens, never an empty list, and rejects blank paths and empty dot segments. |
| Pointer.DecodeEscape | src/core/ActionHistory.cpp:122-127 | Decoding an escaped key gives the key back, for keys holding tildes and slashes. |
| Pointer.PrintInjective | src/core/ActionHistory.cpp:122-127 | Different paths print as different pointers. |
| Pointer.EscapesAreStandard | src/core/ActionHistory.cpp:122-127 | Slash and tilde are escaped as section 3 of RFC 6901 has it. |
| Pointer.TokensOfPrint | src/cli/CliRunner.cpp:538-569 | Reading a printed pointer gives its keys, the last without trailing whitespace; so all of them precisely when it has none. |
| Pointer.TrailingSpaceIsLost | src/cli/CliRunner.cpp:545-569 | A key that ends in a space is read back without it. |
| Pointer.DotTokensExact | src/cli/CliRunner.cpp:557-566 | A dot path has precisely those tokens that are non-empty, hold no dot and join back to it. |
| Journal.LoadAll | src/core/ActionHistory.cpp:392-447 | Accepts precisely the readable journals that are numbered, hash-linked, well formed and without a repeated identifier, and returns their events. |
| JournalLaws.AcceptedEvent | src/core/ActionHistory.cpp:432-437 | What loading makes sure of in each event: its version, number, texts, link, and an identifier of its own. |
| JournalLaws.AcceptedHash | src/core/ActionHistory.cpp:29-33 | The stored hash of an accepted event is the digest of all its other fields. |
| JournalLaws.EditIsRefused | src/core/ActionHistory.cpp:432-437 | An edit of an accepted event is refused, unless the digest does not tell it or it gives the newest event a new hash. |
| Journal.ChainFor | src/core/ActionHistory.cpp:77-87 | The loop collects the chain of an action, oldest first. |
| Journal.BranchNames | src/core/ActionHistory.cpp:850-862 | Lists main first and every lane an event was on, each once. |
| Journal.ChainedAppend | src/core/ActionHistory.cpp:432-442 | What one more event must satisfy for the longer journal to be accepted, and nothing else. |
| ActionHistory.History.Append | src/core/ActionHistory.cpp:449-520 | Appends one sealed event and hands it back, or on a refused load, write or commit leaves the file as it was, unless the rollback itself fails. |
| ActionHistory.History.RecordAction | src/core/ActionHistory.cpp:522-564 | Records an action with its diffs on a known lane, and refuses blank fields and unknown lanes. |
| ActionHistory.History.Toggle | src/core/ActionHistory.cpp:566-641 | Appends the compensation of the chain's newest event when the action is as effective as required. |
| ActionHistory.History.UndoAction | src/core/ActionHistory.cpp:643-648 | Undo toggles an action that is in force. |
| ActionHistory.History.RedoAction | src/core/ActionHistory.cpp:650-655 | Redo toggles one that is not. |
| ActionHistory.History.CompensateEvent | src/core/ActionHistory.cpp:657-684 | Toggles through the newest event of a chain and refuses any other. |
| ActionHistory.History.AddBookmark | src/core/ActionHistory.cpp:686-720 | Appends a bookmark of an existing event, with a name of 1 to 80 characters. |
| ActionHistory.History.AddBranch | src/core/ActionHistory.cpp:722-768 | Appends a lane with a valid, new name. |
| ActionHistory.History.SelectBranch | src/core/ActionHistory.cpp:770-791 | Switches to a known lane only. |
| ActionHistory.History.IsEffective | src/core/ActionHistory.cpp:823-840 | Answers for precisely the events of the chains of a readable journal, compensations included, by whether the chain has odd length. |
| JournalLaws.SameTipSameJournal | src/core/ActionHistory.cpp:29-33 | Two accepted journals with one final hash are the same event for event, unless the digest does not tell an event of one from a different event of the other. |
| JournalLaws.ExecuteKeepsChained | src/core/ActionHistory.cpp:468-476 | Every command leaves a journal that loading accepts, with all older events in place. |
| JournalLaws.RunIsChained | src/core/ActionHistory.cpp:392-520 | Over every run of commands the journal is one loading accepts. |
| JournalLaws.RunAlternates | src/core/ActionHistory.cpp:620-627 | In every journal the commands build, even chain positions carry the action's diffs and odd ones the swapped diffs, each compensating the event before. |
| JournalLaws.EffectiveReadsTail | src/core/ActionHistory.cpp:823-840 | An action is effective precisely when the newest event of its chain carries its own diffs, readable from the forward diff when the two differ. |
| JournalLaws.AnyChainEventToggles | src/core/ActionHistory.cpp:68-75 | Whichever event of a chain is named, the toggle it allows is for that action, compensates the newest event with its diffs swapped, and the opposite one is refused. |
| JournalLaws.CompensateExact | src/core/ActionHistory.cpp:657-684 | Of all events precisely the newest of a chain can be compensated. |
| JournalLaws.RunFiles | src/core/ActionHistory.cpp:619-620 | In every journal the commands build, all events of a chain are filed under the context and element of its action. |
| JournalLaws.RecordExact | src/core/ActionHistory.cpp:522-564 | A record succeeds precisely with a title, a context and an element on the current lane or a known one, and writes them with its diffs. |
| JournalLaws.BookmarkExact | src/core/ActionHistory.cpp:686-720 | A bookmark needs a name of 1 to 80 characters and the event it asks for, and is tied to that one or the newest. |
| JournalLaws.BranchExact | src/core/ActionHistory.cpp:722-768 | A lane needs a valid name that no event was on, and is tied likewise. |
| JournalLaws.SwitchExact | src/core/ActionHistory.cpp:770-791 | Switching needs main or a lane some event was on. |
| JournalLaws.ValidLaneExact | src/core/ActionHistory.cpp:89-94 | Which names lanes can have. |
| JournalLaws.SimplifyExact | src/core/ActionHistory.cpp:553 | Simplifying a name keeps what is written, in order, and leaves single spaces only. |
| JournalLaws.ExecuteTouchesOneChain | src/core/ActionHistory.cpp:566-791 | A toggle extends one chain, a record starts one, bookmarks and lanes change none. |
| JournalLaws.RepairIsNeutral | src/AppController.cpp:3979-3984 | A toggle and its opposite on the same event: the second is never refused and every action stands as before. |
| JournalLaws.ExecuteLane | src/core/ActionHistory.cpp:472-473 | Toggles and bookmarks stay on the current lane, creating and switching move to the lane named, and a known lane stays known. |
| SaveQueueLaws.RunStaysOrdered | src/AppController.cpp:1968-2126 | Over every run, whatever fails, the queued changes lead one by one to the document in memory and the worker is busy exactly while something is queued. |
| SaveQueueLaws.StepKeepsLinkedExact | src/AppController.cpp:1968-2126 | Every step keeps queue, memory and disk linked, except precisely a failed reload after a failed save with another document in memory, and an undo, redo or restore whose new document reaches the disk and is then reported as failed. |
| SaveQueueLaws.RunStaysLinked | src/AppController.cpp:1968-2126 | So does every run without such a step, from any linked state. |
| SaveQueueLaws.EmptyQueueAgrees | src/AppController.cpp:2070-2126 | Whenever the queue empties in such a run the worker is idle and memory equals disk. |
| SaveQueueLaws.SaveRejoins | src/core/ProjectConfig.cpp:963-1008 | After any run at all, the next save that succeeds links memory, queue and disk again. |
| SaveQueueLaws.StaleReloadLosesAgreement | src/AppController.cpp:2083-2088 | A run in which the reload fails and memory and disk differ. |
| SaveQueueLaws.UnconfirmedToggleLosesAgreement | src/AppController.cpp:3943-3946 | An undo or redo whose save fails after writing leaves the merged document on disk and the old one in memory. |
| SaveQueueLaws.RoundSavesHead | src/AppController.cpp:2004-2126 | One working round writes the head's document, dequeues it and starts on the next. |
| SessionLaws.EditsAreConserved | src/AppController.cpp:1986-2046 | However edits and saves interleave, as long as none fails, memory holds the last document asked for, and the changes along those asked for are the saved and recorded ones followed by the queued ones, in order. |
| SessionLaws.ToggleExact | src/AppController.cpp:3966-4012 | An undo or a redo is applied precisely when its guard accepts and append, load and save succeed: the merged document is in memory and on disk and one event is appended. |
| SessionLaws.NoToggleNoChange | src/AppController.cpp:3952-3978 | While something is being saved, or when the journal does not allow it, an undo or redo changes nothing. |
| SessionLaws.RestoreExact | src/AppController.cpp:4014-4066 | A restore makes the document an event names the project precisely when it is an action among the newest two thousand events that loads and saves. |
| SessionLaws.RestoreReportsExact | src/AppController.cpp:4014-4066 | It reports success precisely when the restore is recorded too. |
| SessionLaws.MarkExact | src/AppController.cpp:4068-4113 | A bookmark or lane is appended precisely when the journal allows it and the append is written. |
| HistoryLedger.ActionKeepsBalance | src/AppController.cpp:2037-2046 | Recording a change keeps every path's content balanced against the actions in force. |
| HistoryLedger.ToggleKeepsBalance | src/AppController.cpp:3912-3950 | An accepted undo or redo keeps the balance. |
| HistoryLedger.RepairKeepsBalance | src/AppController.cpp:3979-3984 | A refused one and its repair keep the balance of the untouched document. |
| HistoryLedger.HalfToggleExact | src/AppController.cpp:3974-3984 | A compensation left alone in the journal, neither applied nor repaired, keeps it precisely when its action had changed nothing. |
| HistoryLedger.MovementDecidesDocument | README.md:86 | Two documents balanced over one initial document are the same precisely when the actions in force moved every path alike. |
| HistoryLedger.ChangesToggled | src/core/ActionHistory.cpp:590-627 | A toggle takes its action's change out of force or puts it in, and no other. |
| HistoryRuns.StepKeepsExact | src/AppController.cpp:1968-2126 | Whatever fails in it, a step keeps queue and journal sound; the journal stays about the project precisely unless a failed save ends with another document, a change is not recorded, or a toggle is left alone; and it replays to the project unless a guard refused too. |
| HistoryRuns.RunKeeps | src/AppController.cpp:1968-2126 | From any accounted state, every run without such a step keeps the queue in order, the journal sound and the document balanced. |
| HistoryRuns.OpenedIsAccounted | src/core/ProjectConfig.cpp:953-961 | A project opened without a journal is such a state. |
| HistoryRuns.ReopenedExact | src/core/ProjectConfig.cpp:953-961 | Closing a project in any state and opening it again gives one precisely when the disk holds what was recorded. |
| HistoryRuns.JournalReplaysProject | src/AppController.cpp:2020-2046 | When no guard refuses, applying the journal's forward diffs from the initial document gives the document in memory whenever the queue is empty, and the one on disk unless a step parted the two. |
| HistoryRuns.MovementDecidesProject | README.md:86 | Two runs over one initial document end with the same project precisely when the actions in force at their ends moved every path alike. |
| HistoryRuns.ForceDecidesProject | README.md:86 | They do when the actions in force made the same changes. |
| HistoryRuns.UndoneIsNeverDone | README.md:86 | A run that undid an action under a later edit ends like one that made the edit without the action. |
| HistoryRuns.EverythingUndone | README.md:86 | With every action undone, in any order the guards allow, the project is the initial document. |
| HistoryRuns.RefusalIsNeutral | src/AppController.cpp:3966-4012 | A refused undo or redo, repaired, changes neither the project in memory nor any action's standing, and the disk only if the merged document was written before its save failed. |
| HistoryRuns.RefusalBreaksReplay | src/AppController.cpp:3966-4012 | The journal goes on replaying to the project precisely when the guard did not refuse. |
| HistoryRuns.ConflictingUndoBreaksReplay | src/AppController.cpp:3966-3988 | Two edits of one member and the undo of the first: refused, repaired, and no longer replaying. |
| HistoryRuns.UnconfirmedSaveIsLost | src/core/ProjectConfig.cpp:976-990 | A background save that fails after writing: the reload takes the new document and the journal holds nothing of it. |
| HistoryRuns.RepairReplaysExact | src/AppController.cpp:3979-3984 | Replaying a compensation and its repair restores the document precisely when the guard accepts it. |
| HistoryRuns.RestorePointExact | src/AppController.cpp:4031-4033 | A restore gives the document the action left precisely when the event names it, not empty, or the patch rewrote everything. |
| HistoryRuns.RestoreTakesPatch | src/AppController.cpp:4031-4042 | An action without an after state is restored by making its patch the project. |
| HistoryRuns.RestoredPatchLosesMember | src/cli/CliRunner.cpp:2595-2605 | Such an action that kept a member loses it. |
| SessionLaws.RestoreReach | src/AppController.cpp:4022-4028 | Exactly the newest two thousand events can be restored from. |
| ProjectController.Controller.MutateProject | src/AppController.cpp:1968-2002 | Is the session's edit step. |
| ProjectController.Controller.BeginNextProjectMutation | src/AppController.cpp:2004-2013 | Starts the worker on the head when it is idle and something is queued. |
| ProjectController.Controller.WorkerSave | src/AppController.cpp:2020-2021 | Is the session's save step, with its three outcomes. |
| ProjectController.Controller.WorkerRecord | src/AppController.cpp:2022-2046 | Is the session's record step; an unreadable journal is left alone and the worker goes on to report. |
| ProjectController.Controller.FinishProjectMutation | src/AppController.cpp:2070-2126 | Is the session's completion step. |
| ProjectController.Controller.ApplyHistoryState | src/AppController.cpp:3912-3950 | Succeeds precisely when the guard accepts and the result loads and saves; otherwise memory stays, and the disk too unless the save wrote before it failed. |
| ProjectController.Controller.UndoHistoryEvent | src/AppController.cpp:3966-3988 | Is the session's undo step, repair included, and reports success precisely when it is applied; with an unreadable journal it does nothing. |
| ProjectController.Controller.RedoHistoryEvent | src/AppController.cpp:3990-4012 | Is the session's redo step, in the same way. |
| ProjectController.Controller.RestoreHistoryEvent | src/AppController.cpp:4014-4066 | Is the session's restore step, and reports success precisely when the document is saved and the restore recorded. |
| ProjectController.Controller.BookmarkHistoryEvent | src/AppController.cpp:4068-4081 | Is the session's bookmark step, and reports success precisely when it is appended. |
| ProjectController.Controller.BranchHistoryEvent | src/AppController.cpp:4083-4096 | Is the session's lane step, in the same way. |
| ProjectController.Controller.SwitchHistoryBranch | src/AppController.cpp:4098-4113 | Is the session's switch step, in the same way. |
| WorkspaceQueue.Saver.QueueWorkspacePersistence | src/AppController.cpp:6726-6750 | Is the queue step: a navigation snapshot may replace the last queued one if that is navigation and not in flight. |
| WorkspaceQueue.Saver.BeginNextWorkspacePersistence | src/AppController.cpp:6752-6759 | Hands the head to an idle worker unless paused. |
| WorkspaceQueue.Saver.CompleteWorkspacePersistence | src/AppController.cpp:6766-6790 | Is the completion step: dequeue on success, pause on failure. |
| WorkspaceQueue.Saver.RetryBackgroundPersistence | src/AppController.cpp:6795-6806 | Is the retry step. |
| WorkspaceQueue.RunKeeps | src/AppController.cpp:6726-6806 | Over every run the worker holds the head, nothing waits without a worker or a pause, and the kept snapshots are the submitted ones less skipped navigation. |
| WorkspaceQueue.NothingIsLost | src/AppController.cpp:6726-6806 | Of the snapshots a run asked to save none but navigation is dropped, none is reordered, and the newest is last in the queue or already written. |
| WorkspaceQueue.WaitingStaysCoalesced | src/AppController.cpp:6737-6744 | Over every run no two neighbours waiting behind the head are both navigation. |
| WorkspaceQueue.NavigationExact | src/AppController.cpp:6733-6736 | Which commit messages are navigation. |
| WorkspaceQueue.WritesExact | src/AppController.cpp:6766-6790 | Only a success writes, and what the worker holds; a failure keeps the queue and pauses; while paused nothing is written until a retry. |
| WorkspaceQueue.InFlightIsNeverReplaced | src/AppController.cpp:6737-6744 | Until the worker reports, the head of the queue is the snapshot it holds. |
| WorkspaceQueue.RetryWritesEverything | src/AppController.cpp:6795-6806 | After any failures a retry and one success per queued snapshot write everything the run asked to save but skipped navigation. |
| PackageClosure.Profile.Wanted | src/AppController.cpp:4841-4855 | The sweeps end, even on cyclic or dangling dependencies, with exactly the identifiers reachable from the chosen one. |
| PackageClosure.Profile.Sweep | src/AppController.cpp:4844-4854 | One pass adds only reachable identifiers and reports no change only on a closed set. |
| PackageClosure.Profile.SetPackageEnabled | src/AppController.cpp:4828-4858 | Enabling enables exactly the old set and every package reachable; disabling touches the first match only; an unknown id changes nothing. |
| PackageClosure.EnablingKeepsClosed | src/AppController.cpp:4840-4858 | A dependency-closed profile stays closed when a package is enabled. |
| PackageClosure.DisablingKeepsClosedExact | src/AppController.cpp:4831-4837 | When one is disabled it stays closed precisely when no other enabled package depends on it. |
| PackageClosure.DisablingOpensProfile | src/AppController.cpp:4831-4837 | A profile of two packages that does not stay closed. |
| PathEdit.ArrayIndex | src/cli/CliRunner.cpp:571-588 | An accepted index lies in the array, or at its end when appending is allowed. |
| PathEdit.ValueAt | src/cli/CliRunner.cpp:590-618 | The walk reads the value the tokens lead to. |
| PathEdit.ReplaceAt | src/cli/CliRunner.cpp:620-672 | Succeeds exactly where the tokens resolve, writes there, and on failure leaves the node as it was. |
| PathEdit.EraseAt | src/cli/CliRunner.cpp:674-722 | Erases exactly where the tokens resolve, never the root, and on failure leaves the node as it was. |
| PathEdit.RemoveEqual | src/cli/CliRunner.cpp:785-798 | The backward loop removes every equal element and says whether there was one. |
| PathEdit.ApplyEdit | src/cli/CliRunner.cpp:736-825 | Performs the edit or leaves the document alone. |
| PathEditLaws.ResolveReads | src/cli/CliRunner.cpp:590-672 | A replacement without creation succeeds exactly where a read does, and leads to the value read. |
| PathEditLaws.SetReadsBack | src/cli/CliRunner.cpp:620-672 | Reading a path after a set gives the new value, at the old length after an appending dash. |
| PathEditLaws.SetThenRead | src/cli/CliRunner.cpp:620-672 | The value set is read back along the resolved steps. |
| PathEditLaws.SetWhatIsThere | src/cli/CliRunner.cpp:620-672 | Setting what is already there changes nothing. |
| PathEditLaws.SetTwice | src/cli/CliRunner.cpp:620-672 | The second of two sets wins. |
| PathEditLaws.SetKeepsElsewhere | src/cli/CliRunner.cpp:620-672 | Paths diverging at a resolved step read as before. |
| PathEditLaws.EraseReads | src/cli/CliRunner.cpp:674-722 | After an erase the member is gone, or later array elements have moved down by one, and siblings read as before. |
| PathEditLaws.EraseKeepsElsewhere | src/cli/CliRunner.cpp:674-722 | Paths diverging before the erased step read as before. |
| PathEditLaws.EraseUndoesCreate | src/cli/CliRunner.cpp:620-722 | Erasing what a set created gives the document back. |
| PathEditLaws.SetThenEraseField | src/cli/CliRunner.cpp:736-752 | A set of a new field and its erase, as whole edits, change nothing. |
| PathEditLaws.EditKeepsObject | src/cli/CliRunner.cpp:818-821 | No edit can make the document other than an object. |
| PathEditLaws.ReadStep | src/cli/CliRunner.cpp:590-618 | What one token leads to: a member, or the array element its number names. |
| PathEditLaws.SetExact | src/cli/CliRunner.cpp:745-748 | A set succeeds precisely when its path has a container that takes a value under the last token, and then the container holds it there. |
| PathEditLaws.EraseExact | src/cli/CliRunner.cpp:749-752 | An erase succeeds precisely where its path reads a value, and then the container has lost it. |
| PathEditLaws.AddExact | src/cli/CliRunner.cpp:757-777 | An add succeeds precisely on an array, or with an object on an object, and extends it. |
| PathEditLaws.RemoveExact | src/cli/CliRunner.cpp:778-812 | A remove succeeds precisely on an array that holds the value, or with the name of a member on an object, and takes that out. |
| PathEditLaws.EditKeepsElsewhere | src/cli/CliRunner.cpp:736-825 | A set, add or remove leaves every path that parts from its own as it was. |
| PathEditLaws.WithoutTakesAll | src/cli/CliRunner.cpp:788-793 | A remove takes every equal element out and keeps all others. |
| PathEditLaws.WithoutConcat | src/cli/CliRunner.cpp:788-793 | The elements that stay keep their order. |
| PathEditLaws.ToIntOfDecimal | src/cli/CliRunner.cpp:578-579 | A printed number is read as itself within 32 bits, with a minus as its opposite. |
| PathEditLaws.ToIntReads | src/cli/CliRunner.cpp:578-579 | Whitespace around an index changes nothing, a minus gives the opposite, and a number outside 32 bits is none. |
| PathEditLaws.OnlyNumbersAreRead | src/cli/CliRunner.cpp:578-579 | Nothing but digits with at most a sign is an index. |
| PathEditLaws.SpellOutSpells | src/cli/CliRunner.cpp:571-588 | Every list of steps within 32 bits has tokens that spell it. |
| ResponseFiles.Expander.ExpandArguments | src/cli/CliRunner.cpp:301-368 | Ends, succeeds exactly when the flattening exists and has at most 10,000 arguments, and then returns it with the active files restored. |
| ResponseFiles.Expander.ExpandInclude | src/cli/CliRunner.cpp:333-357 | One include: refuses missing, active and unparsable files, and restores the active files on success. |
| ResponseFiles.FlattenExact | src/cli/CliRunner.cpp:301-368 | The flattening exists precisely when no include chain repeats a file or is longer than eight and every chain ends in a list whose includes resolve and parse. |
| ResponseFiles.FlagExact | src/cli/CliRunner.cpp:317-357 | A flag needs a path, which is replaced by what its file holds, read from that directory. |
| ResponseFiles.AtSignExact | src/cli/CliRunner.cpp:325-357 | So is an at sign before a path, when the file exists. |
| ResponseFiles.PlainExact | src/cli/CliRunner.cpp:331-332 | Every other argument is kept. |
| ResponseFiles.FlattenConcat | src/cli/CliRunner.cpp:313-365 | Flattening one list after another is flattening their concatenation. |
| ResponseFiles.FewerOpenFiles | src/cli/CliRunner.cpp:340-345 | What a list flattens to does not depend on the files open around it. |
| ResponseFiles.SelfIncludeFails | src/cli/CliRunner.cpp:340-344 | A file that reaches itself through includes, at whatever depth, never expands, wherever it is included. |
| ResponseFiles.FlagIsLeftExact | src/cli/CliRunner.cpp:317-332 | A flag is left among the expanded arguments precisely when a list reached through includes has one with an empty path. |
| ResponseFiles.FlagIsPlainExact | src/cli/CliRunner.cpp:317-332 | An argument kept as it is is a flag precisely when an empty path follows it. |
| ResponseFiles.EmptyPathLeavesFlag | src/cli/CliRunner.cpp:317-332 | The smallest such list. |
| DeviceConfig.ParseConfig | server/provisioning_server.py:393-458 | Accepts exactly the inventories whose devices are told apart, with indexes that agree with the device list. |
| DeviceConfig.IndexDevice | server/provisioning_server.py:424-433 | Claims a device's identifiers, and refuses exactly on a bad one or one owned by another device. |
| DeviceConfig.CheckNames | server/provisioning_server.py:435-445 | Accepts exactly when no two devices resolve to one fixed name, ignoring case. |
| DeviceConfig.Resolve | server/provisioning_server.py:341-356 | The indexed lookup is the scan of the device list: the one device, ambiguous, unknown or default. |
| DeviceConfig.ScanExact | server/provisioning_server.py:341-356 | A request is ambiguous precisely when two devices list something it supplies, is given the one that does, and otherwise is unknown or given the default. |
| DeviceConfig.EveryDeviceIsFound | server/provisioning_server.py:393-449 | Every device of an accepted inventory is found by any one identifier it lists, and lists one. |
| DeviceConfig.AcceptedDevice | server/provisioning_server.py:393-449 | What an accepted inventory makes sure of in every device. |
| DeviceConfig.FixedNameIsOneDevice | server/provisioning_server.py:435-449 | Two requests given the same fixed name, ignoring case, are the same device. |
| Text.FoldExact | server/provisioning_server.py:435-445 | Names are compared alike precisely when they differ in the case of letters only. |
| SettingPatches.Profile.ApplySettingPatches | server/provisioning_server.py:561-589 | The in-place patcher computes the patched list. |
| SettingPatches.PatchAllHolds | server/provisioning_server.py:561-589 | Every patched place has an amd64 setting and all settings matching it hold the value. |
| SettingPatches.PatchAllKeepsOrder | server/provisioning_server.py:573-589 | Old settings keep their place and, unless patched, their value; what is added comes after and is patched. |
| SettingPatches.PatchAllTwice | server/provisioning_server.py:561-589 | Patching again changes nothing. |
| SettingPatches.SpecTable | server/provisioning_server.py:177-233 | Which keys go to which pass, component and element names. |
| SettingPatches.PatchAddsExact | server/provisioning_server.py:573-589 | A patch adds its setting precisely when none at the place, without attributes, is for amd64 by name or default. |
| SettingPatches.SpecsApart | server/provisioning_server.py:177-233 | No setting is at two of the specified places. |
| AnswerFile.RenderedExact | src/core/UnattendBuilder.cpp:640-654 | The rendered tree has an element exactly at, and on the way to, the settings' paths, and it holds the value of the last setting at it. |
| AnswerFile.Candidates | server/provisioning_server.py:641-647 | The level-by-level walk finds every element the names lead to. |
| AnswerFile.ValuesFor | server/provisioning_server.py:625-649 | Collects precisely what the elements at a place read as, for one architecture or all. |
| AnswerFile.VerifyRenderedSettings | server/provisioning_server.py:667-675 | The check passes exactly when every assigned place has an amd64 element and all its elements read as the assigned value. |
| AnswerFile.CheckReadsSettings | src/core/UnattendBuilder.cpp:606-672 | On what a profile renders to it passes precisely when a setting for amd64 leads through the place and the last setting at each element there has the value. |
| AnswerFileLaws.ParsePassExact | src/core/UnattendBuilder.cpp:390-399 | A setup pass is named in whatever case, and only the seven are. |
| AnswerFileLaws.CheckPassesExact | server/provisioning_server.py:561-675 | A patched profile renders and passes precisely when it rendered before and every setting that leads to or through a patched place has an element there that is added, patched or held the value. |
| AnswerFileLaws.DeeperSettingFailsCheck | server/provisioning_server.py:641-648 | A setting below a patched place fails the check. |
| AnswerFileLaws.AttributedSettingFailsCheck | server/provisioning_server.py:545-558 | A setting with attributes and another value at the place fails it. |

## Left out

- MergePatch.CollectMergePatchConflicts: does not state the order of the conflict list, because the order of an object's members is not modelled.
- ProjectController.Controller.UndoHistoryEvent: takes the identifier drawn for its event as one not used before, because the generator is not modelled.
- DeviceConfig.ParseConfig: a device's profile, name and settings checks are one validity flag and the identifier normalisers are parameters, because they are pattern checks on text.
- AnswerFile.RenderedExact: the tree is a value that inserting rebuilds, not nodes linked by pointers, and the order of components in the file is not modelled.
- AnswerFile.Read: compares setup-pass names in ASCII case only; names that XML cannot write, the escaping of text and its parsing are not modelled.
- Actions recorded from the command line change no project, so the run laws are about journals without them; restoring one is modelled.
- Project validation, which a save makes before it writes, is part of a save's outcome.
- A lane name that ends in a line break, which the pattern of the original lets through but no lane list holds.
- The hash links do not show an edit of the newest event that renews its hash too (`JournalLaws.EditIsRefused` says which edits they do show).
- JSON text, SHA-256, timestamps, identifiers, Git and the file system: values, parameters and outcome flags of the steps.
- Event descriptions, icons, the destructive flag, the Cantonese half of composed titles and all metadata but the two documents.
- Two processes toggling at the same moment: a toggle's load and append are one step, while the lock covers the append only.
- ProjectConfig: a project is its JSON document, and loading a saved document gives that document.
- The guard on a project transition in progress, the automatic bundle export and the image-index clamp of the controller.
- Legacy events that hold whole documents, and the command-line undo that applies them.
- Error messages; only success, failure and what is left behind are modelled.
- The active files after a failed expansion: a file that fails to parse stays in the set, which no caller reads again.
- The computer-name preparation and the computer-name part of the rendered check.
- Response-file tokenising, HTTP handling, authorisation, servicing plans, jobs, virtual machines and the user interface.
