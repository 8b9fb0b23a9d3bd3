# OneLock in Dafny

OneLock is a small Windows desktop locker. A six-digit PIN guards it. The
user picks or drops files to lock. Each file's content is moved into a
hidden storage directory (PROTECTED_DIR), and a placeholder file
`<path>.locked` holding a fixed marker text is written in its place. The
registry `protected_files` maps each placeholder path to the storage path
and is pickled to disk after every batch. Unlocking a selected entry moves
the content back to the placeholder path with every ".locked" removed. It
then deletes the placeholder and the registry entry. At start-up, entries
whose placeholder or stored file has disappeared are dropped. A reset
deletes the PIN file, the registry file and the storage directory. No
button, menu or shortcut in onelock.py is connected to the reset (or to
`quit_application`), so a user cannot reach it; it is modelled as the
handler it is.

The model keeps the window's state and handlers and removes the PyQt
presentation. The disk is a map from existing paths to their contents.
The PIN file and the registry file are two fields holding what was last
written. Whatever the environment may make fail (a move, a placeholder
write, a removal, a pickle read or write) arrives as a parameter. Batch
operations take one fault per position.

Modules:

- `Paths`: the placeholder path, the storage path
  (`os.path.join(PROTECTED_DIR, os.path.basename(p))`), Windows
  `basename`, and Python's `str.replace(".locked", "")`, which removes
  every occurrence.
- `Credentials`: the check `save_pin` applies to a new PIN, and the
  comparison the login and unlock dialogs make.
- `Vaults`: the registry, an insertion-ordered dict held as a key
  sequence plus a map, and the file system, with insert, delete and move.
- `Locking` and `Unlocking`: one step of each handler's loop as a
  function, the whole loop as a recursive function over the list, and
  their properties.
- `Reconciling`: what `clean_missing_files` leaves in the registry.
- `Display`: the items `update_locked_list` puts in the list.
- `App`: class `OneLock`. Its fields are the PIN, the registry, the
  pending files, the list items, the disk and the two stored files. Its
  methods are the handlers, written with the source's loops, and each is
  proved against the functions above.

Modelling decisions:

- When locking, a move onto a storage path that already exists counts as
  a failed move. Two files with the same base name in different folders
  share one storage slot. The second lock of such a file is therefore
  modelled as failing. The model makes no claim about the overwrite that
  `shutil.move` would really perform there.
- When unlocking, the move back overwrites a file already at the original
  path, as `shutil.move` does on Windows (the rename is refused and it
  copies over the file instead).
- Moving into the storage directory after a reset removed it also fails.
- A selected key missing from the registry makes
  `self.protected_files[placeholder_path]` raise `KeyError` outside the
  `try`. The handler then ends before the save and the list refresh. The
  model returns `StoppedAtMissingKey` for this.

## Model

| member | source | states |
|---|---|---|
| Credentials.IsValidPin | onelock.py:334 | a valid PIN is exactly a six-character string that `isdigit` accepts |
| Credentials.IsDigitString | onelock.py:334 | `isdigit()`: true exactly when the string is non-empty and every character is a digit |
| Credentials.CheckNewPin | onelock.py:334-341 | a new PIN is refused as not six digits exactly when it is not six digits. It is refused as a mismatch exactly when it is well-formed but differs from the confirmation. It is accepted exactly when it is well-formed and equals the confirmation |
| Credentials.PinAccepted | onelock.py:171-177 | a dialog accepts the typed text exactly when a PIN is loaded and the text equals it (the login dialog's copy is at 99-105) |
| Credentials.CreatedPinIsTheOnlyKey | onelock.py:99-105 | after a PIN was created, the dialogs accept that string and nothing else, so whatever they accept is a six-digit PIN |
| Paths.StripLocked | onelock.py:448 | removing ".locked" never lengthens a path |
| Paths.StripLockedDoesNotRescan | onelock.py:448 | the text left after a removal is not scanned again: `.lo.lockedcked` becomes `.locked` |
| Paths.StripLockedFixpoint | onelock.py:448 | removing ".locked" leaves a path unchanged exactly when it contains no ".locked" |
| Paths.StripLockedShrinks | onelock.py:448 | a path containing ".locked" strictly shrinks |
| Paths.StripLockedIgnoresTag | onelock.py:589 | a trailing ".locked" is removed along with all the others |
| Paths.PlaceholderRoundTrip | onelock.py:547-589 | the original path is recovered from its placeholder exactly when it contains no ".locked" |
| Paths.RoundTripLosesInnerTag | onelock.py:589 | a concrete path `x.locked.y` whose placeholder leads back to `x.y`, not to itself |
| Paths.PlaceholderPath | onelock.py:547 | a placeholder starts with the file's path and ends with ".locked" |
| Paths.Basename | onelock.py:449 | the base name is no longer than the path and holds no separator |
| Paths.HiddenPath | onelock.py:545 | the storage path lies directly inside the protected directory |
| Paths.PlaceholderDistinct | onelock.py:547 | a placeholder differs from its file and from its storage path |
| Paths.PlaceholderInjective | onelock.py:547 | different files get different placeholders |
| Paths.BasenameIsLastComponent | onelock.py:449 | the base name is a separator-free suffix of the path, preceded by a separator unless it is the whole path |
| Paths.HiddenPathKeepsName | onelock.py:545 | the storage path lies in the protected directory and keeps the file's base name |
| Paths.HiddenPathIdempotent | onelock.py:545 | a storage path's own storage path is itself |
| Vaults.Without | onelock.py:458-459 | deleting a set of keys keeps exactly the others, in order, still without duplicates |
| Vaults.Put | onelock.py:551 | a dict assignment sets the key and appends it to the key order only when it is new; the registry stays a dict |
| Vaults.Remove | onelock.py:592 | `del` removes the key from the map, keeps the order of the rest, and shortens the key list by one when the key was present |
| Vaults.RemoveAllIsWithout | onelock.py:458-459 | deleting keys one by one is deleting the set of them at once |
| Vaults.MoveFile | onelock.py:546 | a move puts the source's content at the destination, removes the source, and touches nothing else |
| Locking.IsLocked | onelock.py:541 | for a dict, a path counts as locked exactly when some key, with ".locked" removed, equals it; the order of the keys plays no part |
| Locking.LockOne | onelock.py:541-558 | a lock step keeps the storage directory; a step that did not lock leaves the registry as it was |
| Locking.LockOneSpec | onelock.py:541-558 | a path is skipped as already locked exactly when some key with ".locked" removed equals it. It is skipped as missing exactly when it is not locked and does not exist. It is locked exactly when no fault occurs and the storage slot is free. Skips and failed moves change nothing. A failed placeholder write leaves the registry alone. A success registers placeholder to storage path. The registry stays a dict of placeholders to storage paths |
| Locking.LockOneMovesContent | onelock.py:545-549 | after a move the content sits in storage and the file is gone. On success the placeholder holds the marker text. Nothing else on disk changed |
| Locking.LockUpTo | onelock.py:539-560 | the batch yields one result per pending path |
| Locking.LockUpToPreserves | onelock.py:540-560 | a batch never drops a registry key and keeps the registry well-formed |
| Locking.LockTwiceIsNoop | onelock.py:540-542 | locking a just-locked file again changes nothing and is skipped. It is reported as already locked when the path has no ".locked" |
| Locking.LockResultsStable | onelock.py:540 | later paths of a batch do not revise earlier results |
| Locking.LockedEntryStays | onelock.py:551 | an entry locked earlier in a batch is still registered with its storage path at the end |
| Locking.StoredCopyStays | onelock.py:545-546 | content stored earlier in a batch is still in storage at the end |
| Locking.LockedAtMostOnce | onelock.py:539-542 | a path listed twice in one batch is locked at most once |
| Unlocking.UnlockOne | onelock.py:587-597 | a step on a registered key never raises `KeyError` |
| Unlocking.UnlockOneSpec | onelock.py:588-597 | the move back fails exactly when it is faulted or the stored file is missing, and then nothing changes. The entry is deleted exactly when the step fully succeeded, and then the placeholder is gone. The registry stays well-formed |
| Unlocking.UnlockOneRestores | onelock.py:589-591 | once the move back succeeded, the stored content is at the original path, replacing any file there, the storage path is empty, and nothing else moved |
| Unlocking.UnlockOfInnerTagOverwrites | onelock.py:589-590 | the entry locked from `x.locked.y` restores its content to the different path `x.y`, overwriting a file kept there |
| Unlocking.UnlockUpTo | onelock.py:585-597 | the loop yields one result per selected key unless it was interrupted |
| Unlocking.UnlockUpToPreserves | onelock.py:585-597 | the loop keeps the registry well-formed |
| Unlocking.UnlockUpToStep | onelock.py:585-594 | a registered key takes its step, and the count goes up exactly when it was unlocked |
| Unlocking.UnlockUpToMissing | onelock.py:587 | a key missing from the registry interrupts the loop without changing anything |
| Unlocking.UnlockStopsAtMissingKey | onelock.py:587 | once interrupted, no later key is processed |
| Unlocking.UnlockRemovesExactly | onelock.py:585-597 | after the loop the registry is the old one minus exactly the keys fully unlocked |
| Unlocking.RegisteredSelectionCompletes | onelock.py:585-587 | a selection of distinct registered keys is never interrupted |
| Unlocking.UnselectedUntouched | onelock.py:585-597 | an entry that was not selected survives with its storage path |
| Unlocking.UnlockCountMatchesRemoved | onelock.py:594 | `unlocked_count` equals the number of entries the loop removed |
| Unlocking.RemoveUndoesPut | onelock.py:592 | deleting a key just added gives back the registry |
| Unlocking.MoveBackUndoesMove | onelock.py:590-591 | moving back and deleting the placeholder restores the disk, except what sat at the placeholder path |
| Unlocking.LockThenUnlock | onelock.py:535-608 | a file without ".locked" in its path, locked then unlocked with no fault, is back with its content. The registry is as before. The only other trace is that the placeholder path is empty |
| Reconciling.Orphans | onelock.py:454-457 | an entry is collected when its placeholder is missing, and when its stored file is missing; an entry with both files present is not collected |
| Reconciling.Reconcile | onelock.py:453-459 | after cleaning, exactly the entries whose placeholder and stored file both exist survive, with their storage paths and in their order |
| Reconciling.ReconcileByRemoval | onelock.py:454-459 | deleting the collected keys one at a time gives the cleaned registry |
| Reconciling.ReconcileIdempotent | onelock.py:453-461 | cleaning twice against the same disk is cleaning once |
| Reconciling.ReconcileShrinks | onelock.py:453-461 | cleaning never adds an entry |
| Display.Listing | onelock.py:445-451 | one item per key, in key order; each carries its key and shows the base name of the key with ".locked" removed |
| Display.LabelOfLockedFile | onelock.py:448-449 | a locked file is listed under its own name when its path has no ".locked", and a label never holds a separator |
| App.ResetLosesLockedContent | onelock.py:498-499 | removing the storage directory deletes the stored content of every registered entry, while the placeholders outside it stay with their content |
| App.OneLock.constructor | onelock.py:180-198 | start-up loads the stored PIN and registry, then cleans and saves the registry and fills the list |
| App.OneLock.LoadData | onelock.py:610-620 | each stored file is read only when it exists; a failed read abandons the rest and keeps memory as it was |
| App.OneLock.SaveProtectedFiles | onelock.py:622-628 | the stored registry becomes the registry in memory unless writing fails |
| App.OneLock.UpdateLockedList | onelock.py:445-451 | the list holds exactly the listing of the registry keys |
| App.OneLock.SaveAndRefresh | onelock.py:460-461 | one save, then the list refreshed; the registry and disk stay as they are |
| App.OneLock.SavePin | onelock.py:330-348 | the PIN is kept only when the check accepts it. It is written to disk unless the write fails, and the list is shown only after a successful write |
| App.OneLock.Login | onelock.py:350-357 | with a PIN held it is not reloaded; with none (`not self.pin`) the PIN and registry are what the load leaves. The login succeeds exactly when the typed text equals the PIN, and then the list is shown. On rejection the window closes, and `closeEvent` (630-635) saves the registry once |
| App.OneLock.CollectMissing | onelock.py:454-457 | the keys collected are exactly those whose placeholder or stored file is missing |
| App.OneLock.DeleteEntries | onelock.py:458-459 | each collected key is deleted in turn |
| App.OneLock.CleanMissingFiles | onelock.py:453-461 | the registry becomes the cleaned one; it is saved once and the list is refreshed |
| App.OneLock.IsAlreadyLocked | onelock.py:541 | true exactly when some key with ".locked" removed is the path |
| App.OneLock.LockOneFile | onelock.py:541-558 | one iteration of the lock loop does what the lock step specifies and reports success exactly when it locked |
| App.OneLock.LockEach | onelock.py:539-560 | the loop leaves the state of the whole batch and counts exactly the paths locked |
| App.OneLock.LockPending | onelock.py:539-563 | the batch, then one save, pending cleared and the list refreshed |
| App.OneLock.LockFiles | onelock.py:535-573 | nothing happens with nothing pending; otherwise the batch's effect, its count, one save, pending cleared, list refreshed |
| App.OneLock.ChooseFiles | onelock.py:521-526 | a non-empty choice is locked as a batch, with its count, one save of the new registry, pending cleared and the list refreshed; an empty one changes nothing |
| App.OneLock.DropFiles | onelock.py:516-519 | the dropped paths are locked as a batch, with its count, one save of the new registry and the list refreshed; an empty drop saves nothing and changes nothing else |
| App.OneLock.UnlockOneFile | onelock.py:587-597 | one iteration of the unlock loop does what the unlock step specifies and reports success exactly when it unlocked |
| App.OneLock.UnlockEach | onelock.py:585-597 | the loop leaves the state of the whole selection, counts the keys unlocked, and reports whether a missing key stopped it |
| App.OneLock.UnlockAccepted | onelock.py:583-599 | the selection's effect; without interruption one save and a refreshed list, and after `KeyError` neither |
| App.OneLock.UnlockSelectedFiles | onelock.py:575-608 | nothing happens without a selection or with a wrong PIN; otherwise as the accepted unlock |
| App.OneLock.ResetApplication | onelock.py:485-508 | confirmed, the PIN file, registry file and storage directory are removed in that order, each only if present, and memory is cleared. A removal that raises keeps what was already removed and leaves memory untouched |

## Left out

- The PyQt user interface: window layout, animations, notifications, the splash screen, message boxes, the drag-enter test, PIN visibility toggles, and the PIN dialog's retry loop. A dialog is one attempt with one typed string.
- `resource_path`, the icon, logging, and `SetFileAttributesW`, which hides files. None of them changes the state modelled.
- The pickle file format: a stored file is modelled as the value it holds. A truncated file left by a failed write is not modelled; the old content is kept.
- Drive letters and UNC prefixes in `os.path.basename`, and moves across devices.
- `shutil.rmtree` failing part-way: a failed removal of the storage directory removes nothing.
- Paths.ProtectedDir: the real PROTECTED_DIR depends on where the executable lives. A fixed stand-in string is used.
- Credentials.IsDigitString: Python's `isdigit` also accepts non-ASCII digits. Only `0`-`9` are modelled.
- Locking.LockOneSpec: a move onto an existing storage path is modelled as a failure, although `shutil.move` would overwrite it. `LockedAtMostOnce` and `StoredCopyStays` rely on this.
- Locking.LockUpTo: each successful iteration calls `QApplication.processEvents()` (onelock.py:554), which can run other handlers mid-batch: a click on "Unlock Selected Files" or a new drop would unlock or lock, save and refresh before the outer loop goes on. The model runs each handler to completion, so `App.OneLock.LockEach`, `LockPending`, `LockFiles`, `ChooseFiles` and `DropFiles` promise one save per batch and the state `LockUpTo` gives only for a batch that no other handler interleaves.
- App.OneLock.constructor: the login flow that `setup_ui` runs inside `__init__` is not modelled, nor the `load_data` it may trigger, nor the close-and-save after a rejected PIN. `Login` models that flow on its own. Creating PROTECTED_DIR is modelled as the directory existing afterwards.
- App.OneLock.UnlockAccepted: with PyQt5 5.5 and later, an exception left unhandled in a slot aborts the process, and the program installs no `sys.excepthook`. A `KeyError` in the loop therefore ends the process. The state the model returns with `StoppedAtMissingKey` is then lost. Only the files already moved and the registry last saved remain, and `clean_missing_files` reconciles them at the next start.
- App.OneLock.SavePin: an exception from writing the PIN file likewise ends the process, with the PIN set only in memory. The model's final state for that case is lost the same way, and no PIN file is left.
- App.OneLock.Login: the login dialog is reached only from `__init__` through `setup_ui` (onelock.py:196, 218), before `app.exec_()` starts the event loop (675). The `QApplication.quit()` in `closeEvent` therefore has no effect there. Start-up then goes on with `load_data` and `clean_missing_files` (197-198), which saves a second time, and the splash timer later shows the window; that continuation is the `App.OneLock.constructor` line above and is not modelled as part of `Login`.
- `quit_application` calls `save_protected_files`, which `SaveProtectedFiles` models. The Qt shutdown is not modelled.
- Locking.StoredCopyStays: paths are compared as exact strings, while NTFS ignores case. Two files whose names differ only in case get two storage slots here but share one on disk, where the second lock overwrites the first stored copy. `LockedAtMostOnce`, `IsLocked` and the unlock target likewise compare case-sensitively.
- `show_main_ui`, `show_pin_setup`, `check_pin_length`, `animate_button` and `toggle_pin_setup_visibility` only build or restyle widgets.
- A placeholder may itself be chosen for locking; the model treats it like any other file.
