/**
 * The `OneLock` window with its PyQt presentation taken away: the fields
 * it updates in place and the handlers that update them. The file system,
 * the stored PIN file and the stored registry file are fields too; faults
 * the environment may raise arrive as parameters.
 */
module App {
  import opened Wrappers
  import opened Paths
  import opened Credentials
  import opened Vaults
  import opened Locking
  import opened Unlocking
  import opened Reconciling
  import opened Display

  /** Where `load_data` may fail: unpickling the PIN file or the registry file. */
  datatype LoadFault = LoadsCleanly | PinUnreadable | RegistryUnreadable

  /** The step of `reset_application` that raises, if any. */
  datatype ResetFault = ResetsCleanly | PinFileRemoveFails | RegistryFileRemoveFails | StoreRemoveFails

  /** How `unlock_selected_files` ended. */
  datatype UnlockOutcome =
    | NothingSelected                  // "Please select files to unlock!"
    | PinRejected                      // the dialog was not accepted
    | Finished(unlocked: nat)          // loop done, registry saved, list refreshed
    | StoppedAtMissingKey(unlocked: nat) // KeyError: nothing saved, list not refreshed

  /** How the unlock handler ends after running its loop to `b`; the count is `unlocked_count`. */
  function Ending(b: UnlockBatch): UnlockOutcome {
    var n := Count(b.results, Unlocked);
    if Interrupted(b.results) then StoppedAtMissingKey(n) else Finished(n)
  }

  /** The file system after `shutil.rmtree(PROTECTED_DIR)`. */
  function WithoutStore(fs: Fs): (r: Fs)
    ensures forall q :: q in r <==> q in fs && !InProtectedDir(q)
    ensures forall q :: q in r ==> r[q] == fs[q]
  {
    map q | q in fs && !InProtectedDir(q) :: fs[q]
  }

  /**
   * What a reset does to the files locked at that moment: their stored
   * content is deleted, not restored, while their placeholders (outside the
   * storage directory) stay on disk with the marker text.
   */
  lemma ResetLosesLockedContent(reg: Registry, fs: Fs)
    requires reg.WellFormed()
    ensures forall k :: k in reg.hidden ==> reg.hidden[k] !in WithoutStore(fs)
    ensures forall k :: k in reg.hidden && k in fs && !InProtectedDir(k) ==>
              k in WithoutStore(fs) && WithoutStore(fs)[k] == fs[k]
  {
  }

  class OneLock {
    /** `self.pin`: the PIN in memory, None until created or loaded. */
    var pin: Option<string>
    /** `self.protected_files`: its keys in insertion order, and the dict itself. */
    var keys: seq<Path>
    var hidden: map<Path, Path>
    /** `self.pending_files`: paths chosen or dropped, waiting to be locked. */
    var pending: seq<Path>
    /** The items of `self.locked_list`. */
    var display: seq<Item>

    /** The disk: existing files with their contents. */
    var fs: Fs
    /** PROTECTED_DIR exists. */
    var storeDir: bool
    /** PIN_FILE and PROTECTED_FILES_DB: None when the file is absent. */
    var savedPin: Option<string>
    var savedRegistry: Option<Registry>
    /** Number of calls to `save_protected_files`. */
    ghost var saves: nat

    function Reg(): Registry
      reads this`keys, this`hidden
    {
      Registry(keys, hidden)
    }

    function State(): Vault
      reads this`keys, this`hidden, this`fs, this`storeDir
    {
      Vault(Reg(), fs, storeDir)
    }

    /** The registry in memory and the one on disk are dicts. */
    ghost predicate Valid()
      reads this`keys, this`hidden, this`savedRegistry
    {
      Reg().Valid() && (savedRegistry.Some? ==> savedRegistry.value.Valid())
    }

    /**
     * Start-up: empty state, PROTECTED_DIR created, then `load_data` and
     * `clean_missing_files`. A stored registry is a pickled dict.
     */
    constructor (disk: Fs, diskPin: Option<string>, diskRegistry: Option<Registry>,
                 load: LoadFault, saveFails: bool)
      requires diskRegistry.Some? ==> diskRegistry.value.Valid()
      ensures Valid()
      ensures fs == disk && storeDir && pending == []
      ensures savedPin == diskPin
      ensures pin == if diskPin.Some? && load != PinUnreadable then diskPin else None
      ensures var loaded :=
                if !(diskPin.Some? && load == PinUnreadable) && diskRegistry.Some? && load != RegistryUnreadable
                then diskRegistry.value else EmptyRegistry;
              Reg() == Reconcile(loaded, disk)
      ensures savedRegistry == if saveFails then diskRegistry else Some(Reg())
      ensures display == Listing(keys)
    {
      pin := None;
      keys, hidden := [], map[];
      pending := [];
      display := [];
      fs := disk;
      storeDir := true;
      savedPin := diskPin;
      savedRegistry := diskRegistry;
      saves := 0;
      new;
      LoadData(load);
      CleanMissingFiles(saveFails);
    }

    /**
     * `load_data`: the PIN file, then the registry file, each read only when
     * it exists. A failure abandons the rest and keeps what was in memory.
     */
    method LoadData(fault: LoadFault)
      requires Valid()
      modifies this`pin, this`keys, this`hidden
      ensures Valid()
      ensures pin == if savedPin.Some? && fault != PinUnreadable then savedPin else old(pin)
      ensures Reg() ==
        if !(savedPin.Some? && fault == PinUnreadable) && savedRegistry.Some? && fault != RegistryUnreadable
        then savedRegistry.value else old(Reg())
    {
      if savedPin.Some? {
        if fault == PinUnreadable {
          return;
        }
        pin := savedPin;
      }
      if savedRegistry.Some? {
        if fault == RegistryUnreadable {
          return;
        }
        keys, hidden := savedRegistry.value.keys, savedRegistry.value.hidden;
      }
    }

    /** `save_protected_files`: the registry is copied to disk unless writing fails. */
    method SaveProtectedFiles(fails: bool)
      requires Valid()
      modifies this`savedRegistry, this`saves
      ensures Valid()
      ensures savedRegistry == if fails then old(savedRegistry) else Some(Reg())
      ensures saves == old(saves) + 1
    {
      if !fails {
        savedRegistry := Some(Reg());
      }
      saves := saves + 1;
    }

    /** `update_locked_list`: one item per registry key, in key order. */
    method UpdateLockedList()
      modifies this`display
      ensures display == Listing(keys)
    {
      display := [];
      var i := 0;
      while i < |keys|
        invariant 0 <= i <= |keys|
        invariant display == Listing(keys[..i])
      {
        var k := keys[i];
        display := display + [Item(Basename(StripLocked(k)), k)];
        i := i + 1;
        assert keys[..i][..i - 1] == keys[..i - 1];
      }
      assert keys[..|keys|] == keys;
    }

    /**
     * The end of `clean_missing_files`, `lock_files` and
     * `unlock_selected_files`: one save of the registry, then the list
     * refreshed. The registry and the disk stay as they are.
     */
    method SaveAndRefresh(saveFails: bool)
      requires Valid()
      modifies this`savedRegistry, this`saves, this`display
      ensures Valid()
      ensures savedRegistry == if saveFails then old(savedRegistry) else Some(Reg())
      ensures saves == old(saves) + 1
      ensures display == Listing(keys)
      ensures State() == old(State())
    {
      SaveProtectedFiles(saveFails);
      UpdateLockedList();
    }

    /**
     * `save_pin`: a six-digit PIN equal to its confirmation is kept in
     * memory and written to disk, then the main window (and with it the
     * list) is shown. A failing write raises after the PIN is already set.
     */
    method SavePin(entered: string, confirm: string, writeFails: bool) returns (check: PinCheck)
      modifies this`pin, this`savedPin, this`display
      ensures check == CheckNewPin(entered, confirm)
      ensures check != Accepted ==> pin == old(pin) && savedPin == old(savedPin) && display == old(display)
      ensures check == Accepted ==>
                && pin == Some(entered)
                && savedPin == (if writeFails then old(savedPin) else Some(entered))
                && display == (if writeFails then old(display) else Listing(keys))
    {
      if |entered| != 6 || !IsDigitString(entered) {
        return NotSixDigits;
      }
      if entered != confirm {
        return Mismatch;
      }
      pin := Some(entered);
      check := Accepted;
      if writeFails {
        return;
      }
      savedPin := Some(entered);
      UpdateLockedList();
    }

    /**
     * `show_login_dialog`: the PIN is loaded if none is held (Python's
     * `not self.pin`, true for None and for the empty string), then the
     * dialog accepts the typed text only if it equals that PIN. Accepted,
     * the main window (and with it the list) is shown. Rejected, the window
     * is closed, and its `closeEvent` saves the registry.
     */
    method Login(entered: string, load: LoadFault, saveFails: bool) returns (accepted: bool)
      requires Valid()
      modifies this`pin, this`keys, this`hidden, this`display, this`savedRegistry, this`saves
      ensures Valid()
      ensures !NoPinHeld(old(pin)) ==> pin == old(pin) && Reg() == old(Reg())
      ensures NoPinHeld(old(pin)) ==>
                && pin == (if savedPin.Some? && load != PinUnreadable then savedPin else old(pin))
                && Reg() == if !(savedPin.Some? && load == PinUnreadable) && old(savedRegistry).Some?
                              && load != RegistryUnreadable
                            then old(savedRegistry).value else old(Reg())
      ensures accepted <==> pin == Some(entered)
      ensures accepted ==>
                display == Listing(keys) && savedRegistry == old(savedRegistry) && saves == old(saves)
      ensures !accepted ==>
                && display == old(display)
                && savedRegistry == (if saveFails then old(savedRegistry) else Some(Reg()))
                && saves == old(saves) + 1
    {
      if NoPinHeld(pin) {
        LoadData(load);
      }
      accepted := PinAccepted(entered, pin);
      if accepted {
        UpdateLockedList();
      } else {
        // self.close() -> closeEvent -> save_protected_files
        SaveProtectedFiles(saveFails);
      }
    }

    /**
     * The first loop of `clean_missing_files`: the keys, in registry order,
     * whose placeholder or stored file is missing.
     */
    method CollectMissing() returns (doomed: seq<Path>)
      requires Valid()
      ensures Elems(doomed) == Orphans(Reg(), fs)
    {
      doomed := [];
      var i := 0;
      while i < |keys|
        invariant 0 <= i <= |keys|
        invariant forall k :: k in doomed <==> k in keys[..i] && k in Orphans(Reg(), fs)
      {
        var k := keys[i];
        assert k in hidden;
        if !(k in fs && hidden[k] in fs) {
          doomed := doomed + [k];
        }
        i := i + 1;
        assert keys[..i] == keys[..i - 1] + [k];
      }
      assert keys[..|keys|] == keys;
    }

    /** The second loop of `clean_missing_files`: `del` of each collected key. */
    method DeleteEntries(doomed: seq<Path>)
      modifies this`keys, this`hidden
      ensures Reg() == RemoveAll(old(Reg()), doomed)
    {
      ghost var reg0 := Reg();
      var j := 0;
      while j < |doomed|
        invariant 0 <= j <= |doomed|
        invariant Reg() == RemoveAll(reg0, doomed[..j])
      {
        var r := Remove(Reg(), doomed[j]);
        keys, hidden := r.keys, r.hidden;
        assert doomed[..j + 1][..j] == doomed[..j];
        j := j + 1;
      }
      assert doomed[..|doomed|] == doomed;
    }

    /** `clean_missing_files`: drops the entries whose files are gone, then saves. */
    method CleanMissingFiles(saveFails: bool)
      requires Valid()
      modifies this`keys, this`hidden, this`savedRegistry, this`saves, this`display
      ensures Valid()
      ensures Reg() == Reconcile(old(Reg()), fs)
      ensures savedRegistry == if saveFails then old(savedRegistry) else Some(Reg())
      ensures saves == old(saves) + 1
      ensures display == Listing(keys)
    {
      var doomed := CollectMissing();
      DeleteEntries(doomed);
      ReconcileByRemoval(old(Reg()), fs, doomed);
      SaveAndRefresh(saveFails);
    }

    /** `is_already_locked`: some key, with every ".locked" removed, is `p`. */
    method IsAlreadyLocked(p: Path) returns (found: bool)
      ensures found <==> IsLocked(Reg(), p)
    {
      found := false;
      var i := 0;
      while i < |keys| && !found
        invariant 0 <= i <= |keys|
        invariant found <==> exists j :: 0 <= j < i && StripLocked(keys[j]) == p
      {
        found := StripLocked(keys[i]) == p;
        i := i + 1;
      }
    }

    /**
     * The body of the loop in `lock_files` for one path: returns whether
     * `locked_count` goes up.
     */
    method LockOneFile(p: Path, f: LockFault) returns (ok: bool)
      modifies this`keys, this`hidden, this`fs
      ensures State() == LockOne(old(State()), p, f).vault
      ensures ok <==> LockOne(old(State()), p, f).result == Locked
    {
      ok := false;
      var already := IsAlreadyLocked(p);
      if p in fs && !already {
        var h := HiddenPath(p);
        if f == MoveFails || !storeDir || h in fs {
          // shutil.move raised: the error is reported, the file stays put
        } else {
          fs := MoveFile(fs, p, h);
          if f != MarkerWriteFails {
            var ph := PlaceholderPath(p);
            fs := fs[ph := Marker];
            var r := Put(Reg(), ph, h);
            keys, hidden := r.keys, r.hidden;
            ok := true;
          }
        }
      }
    }

    /** The loop of `lock_files` over `pending_files`, counting the files locked. */
    method LockEach(ps: seq<Path>, faults: seq<LockFault>) returns (locked: nat)
      modifies this`keys, this`hidden, this`fs
      ensures var b := LockUpTo(old(State()), ps, faults, |ps|);
              State() == b.vault && locked == Count(b.results, Locked)
    {
      ghost var v0 := State();
      ghost var b := LockUpTo(v0, ps, faults, 0);
      locked := 0;
      var i := 0;
      while i < |ps|
        invariant 0 <= i <= |ps|
        invariant b == LockUpTo(v0, ps, faults, i)
        invariant State() == b.vault
        invariant locked == Count(b.results, Locked)
      {
        LockUpToStep(v0, ps, faults, i);
        var ok := LockOneFile(ps[i], LockFaultAt(faults, i));
        if ok {
          locked := locked + 1;
        }
        b := LockUpTo(v0, ps, faults, i + 1);
        i := i + 1;
      }
    }

    /** `lock_files` with at least one path pending. */
    method LockPending(faults: seq<LockFault>, saveFails: bool) returns (locked: nat)
      requires Valid()
      modifies this`keys, this`hidden, this`fs, this`pending, this`display, this`savedRegistry, this`saves
      ensures Valid()
      ensures var b := LockUpTo(old(State()), old(pending), faults, |old(pending)|);
              && State() == b.vault
              && locked == Count(b.results, Locked)
      ensures pending == []
      ensures savedRegistry == if saveFails then old(savedRegistry) else Some(Reg())
      ensures saves == old(saves) + 1
      ensures display == Listing(keys)
    {
      ghost var v0 := State();
      locked := LockEach(pending, faults);
      LockUpToPreserves(v0, pending, faults, |pending|);
      ghost var after := State();
      pending := [];
      assert State() == after;
      SaveAndRefresh(saveFails);
    }

    /**
     * `lock_files`: each pending path in turn, a failure on one not
     * stopping the others; then one save, `pending_files` emptied and the
     * list refreshed. Returns `locked_count`. Nothing happens when no path
     * is pending.
     */
    method LockFiles(faults: seq<LockFault>, saveFails: bool) returns (locked: nat)
      requires Valid()
      modifies this`keys, this`hidden, this`fs, this`pending, this`display, this`savedRegistry, this`saves
      ensures Valid()
      ensures old(pending) == [] ==> locked == 0 && unchanged(this)
      ensures old(pending) != [] ==>
                var b := LockUpTo(old(State()), old(pending), faults, |old(pending)|);
                && State() == b.vault
                && locked == Count(b.results, Locked)
                && pending == []
                && savedRegistry == (if saveFails then old(savedRegistry) else Some(Reg()))
                && saves == old(saves) + 1
                && display == Listing(keys)
    {
      if pending == [] {
        return 0;
      }
      locked := LockPending(faults, saveFails);
    }

    /**
     * `choose_files`: a non-empty choice becomes `pending_files` and is
     * locked; an empty one (the dialog cancelled) changes nothing.
     */
    method ChooseFiles(files: seq<Path>, faults: seq<LockFault>, saveFails: bool) returns (locked: nat)
      requires Valid()
      modifies this`keys, this`hidden, this`fs, this`pending, this`display, this`savedRegistry, this`saves
      ensures Valid()
      ensures files == [] ==> locked == 0 && unchanged(this)
      ensures files != [] ==>
                var b := LockUpTo(old(State()), files, faults, |files|);
                && State() == b.vault
                && locked == Count(b.results, Locked)
                && pending == []
                && savedRegistry == (if saveFails then old(savedRegistry) else Some(Reg()))
                && saves == old(saves) + 1
                && display == Listing(keys)
    {
      locked := 0;
      if files != [] {
        pending := files;
        locked := LockFiles(faults, saveFails);
      }
    }

    /** `dropEvent`: the dropped paths replace `pending_files` and are locked. */
    method DropFiles(paths: seq<Path>, faults: seq<LockFault>, saveFails: bool) returns (locked: nat)
      requires Valid()
      modifies this`keys, this`hidden, this`fs, this`pending, this`display, this`savedRegistry, this`saves
      ensures Valid() && pending == []
      ensures paths == [] ==>
                && locked == 0 && State() == old(State()) && display == old(display)
                && savedRegistry == old(savedRegistry) && saves == old(saves)
      ensures paths != [] ==>
                var b := LockUpTo(old(State()), paths, faults, |paths|);
                && State() == b.vault
                && locked == Count(b.results, Locked)
                && savedRegistry == (if saveFails then old(savedRegistry) else Some(Reg()))
                && saves == old(saves) + 1
                && display == Listing(keys)
    {
      pending := paths;
      locked := LockFiles(faults, saveFails);
    }

    /**
     * The body of the loop in `unlock_selected_files` for a registered key:
     * returns whether `unlocked_count` goes up.
     */
    method UnlockOneFile(k: Path, f: UnlockFault) returns (ok: bool)
      requires k in hidden
      modifies this`keys, this`hidden, this`fs
      ensures State() == UnlockOne(old(State()), k, f).vault
      ensures ok <==> UnlockOne(old(State()), k, f).result == Unlocked
    {
      ok := false;
      var h := hidden[k];
      var original := StripLocked(k);
      if f == RestoreFails || h !in fs {
        // shutil.move raised: the entry and both files stay
      } else {
        fs := MoveFile(fs, h, original);
        if f != RemoveFails && k in fs {
          fs := fs - {k};
          var r := Remove(Reg(), k);
          keys, hidden := r.keys, r.hidden;
          ok := true;
        }
      }
    }

    /**
     * The loop of `unlock_selected_files`, counting the keys unlocked; it
     * stops at the first key missing from the registry.
     */
    method UnlockEach(ks: seq<Path>, faults: seq<UnlockFault>) returns (count: nat, stopped: bool)
      modifies this`keys, this`hidden, this`fs
      ensures var b := UnlockUpTo(old(State()), ks, faults, |ks|);
              && State() == b.vault
              && count == Count(b.results, Unlocked)
              && (stopped <==> Interrupted(b.results))
    {
      ghost var v0 := State();
      ghost var b := UnlockUpTo(v0, ks, faults, 0);
      count := 0;
      var i := 0;
      while i < |ks| && ks[i] in hidden
        invariant 0 <= i <= |ks|
        invariant b == UnlockUpTo(v0, ks, faults, i)
        invariant State() == b.vault
        invariant count == Count(b.results, Unlocked)
        invariant !Interrupted(b.results)
      {
        UnlockUpToStep(v0, ks, faults, i);
        var ok := UnlockOneFile(ks[i], UnlockFaultAt(faults, i));
        if ok {
          count := count + 1;
        }
        b := UnlockUpTo(v0, ks, faults, i + 1);
        i := i + 1;
      }
      stopped := i < |ks|;
      if stopped {
        // `self.protected_files[placeholder_path]` raises KeyError
        UnlockUpToMissing(v0, ks, faults, i);
        UnlockStopsAtMissingKey(v0, ks, faults, i + 1, |ks|);
      }
    }

    /**
     * `unlock_selected_files` once the PIN dialog was accepted: each key in
     * turn is unlocked, a failure on one not stopping the others; a key
     * missing from the registry raises KeyError and ends the handler before
     * the save. Otherwise the registry is saved once and the list refreshed.
     */
    method UnlockAccepted(selected: seq<Path>, faults: seq<UnlockFault>, saveFails: bool)
      returns (outcome: UnlockOutcome)
      requires Valid()
      modifies this`keys, this`hidden, this`fs, this`display, this`savedRegistry, this`saves
      ensures Valid()
      ensures var b := UnlockUpTo(old(State()), selected, faults, |selected|);
              State() == b.vault && outcome == Ending(b)
      ensures outcome.StoppedAtMissingKey? ==>
                savedRegistry == old(savedRegistry) && saves == old(saves) && display == old(display)
      ensures outcome.Finished? ==>
                && savedRegistry == (if saveFails then old(savedRegistry) else Some(Reg()))
                && saves == old(saves) + 1
                && display == Listing(keys)
    {
      ghost var v0 := State();
      var count, stopped := UnlockEach(selected, faults);
      UnlockUpToPreserves(v0, selected, faults, |selected|);
      if stopped {
        return StoppedAtMissingKey(count);
      }
      SaveAndRefresh(saveFails);
      outcome := Finished(count);
    }

    /**
     * `unlock_selected_files` for the keys the selected items carry: nothing
     * happens without a selection, or when the PIN dialog does not accept.
     */
    method UnlockSelectedFiles(selected: seq<Path>, entered: string, faults: seq<UnlockFault>, saveFails: bool)
      returns (outcome: UnlockOutcome)
      requires Valid()
      modifies this`keys, this`hidden, this`fs, this`display, this`savedRegistry, this`saves
      ensures Valid()
      ensures selected == [] ==> outcome == NothingSelected && unchanged(this)
      ensures selected != [] && !PinAccepted(entered, pin) ==> outcome == PinRejected && unchanged(this)
      ensures selected != [] && PinAccepted(entered, pin) ==>
                var b := UnlockUpTo(old(State()), selected, faults, |selected|);
                State() == b.vault && outcome == Ending(b)
      ensures outcome.StoppedAtMissingKey? ==>
                savedRegistry == old(savedRegistry) && saves == old(saves) && display == old(display)
      ensures outcome.Finished? ==>
                && savedRegistry == (if saveFails then old(savedRegistry) else Some(Reg()))
                && saves == old(saves) + 1
                && display == Listing(keys)
    {
      if selected == [] {
        return NothingSelected;
      }
      if !PinAccepted(entered, pin) {
        return PinRejected;
      }
      outcome := UnlockAccepted(selected, faults, saveFails);
    }

    /**
     * `reset_application`, once the user confirmed: the PIN file, the
     * registry file and PROTECTED_DIR (with the stored contents) are removed
     * in that order, each only if it exists; then the PIN, the registry and
     * `pending_files` are cleared. A removal that raises ends the handler:
     * what was already removed stays removed, memory is left as it was.
     */
    method ResetApplication(confirmed: bool, fault: ResetFault) returns (done: bool)
      requires Valid()
      modifies this`pin, this`keys, this`hidden, this`pending, this`fs, this`storeDir, this`savedPin, this`savedRegistry
      ensures Valid()
      ensures done <==>
                && confirmed
                && (fault == PinFileRemoveFails ==> old(savedPin).None?)
                && (fault == RegistryFileRemoveFails ==> old(savedRegistry).None?)
                && (fault == StoreRemoveFails ==> !old(storeDir))
      ensures done ==>
                && pin == None && Reg() == EmptyRegistry && pending == []
                && savedPin == None && savedRegistry == None
                && !storeDir && fs == (if old(storeDir) then WithoutStore(old(fs)) else old(fs))
      ensures !done ==>
                && pin == old(pin) && Reg() == old(Reg()) && pending == old(pending)
                && fs == old(fs) && storeDir == old(storeDir)
      ensures savedPin ==
                if confirmed && (fault == PinFileRemoveFails ==> old(savedPin).None?) then None else old(savedPin)
      ensures savedRegistry ==
                if confirmed && (fault == PinFileRemoveFails ==> old(savedPin).None?)
                   && (fault == RegistryFileRemoveFails ==> old(savedRegistry).None?)
                then None else old(savedRegistry)
    {
      if !confirmed {
        return false;
      }
      if savedPin.Some? {
        if fault == PinFileRemoveFails {
          return false;
        }
        savedPin := None;
      }
      if savedRegistry.Some? {
        if fault == RegistryFileRemoveFails {
          return false;
        }
        savedRegistry := None;
      }
      if storeDir {
        if fault == StoreRemoveFails {
          return false;
        }
        fs := WithoutStore(fs);
        storeDir := false;
      }
      keys, hidden := [], map[];
      pending := [];
      pin := None;
      done := true;
    }
  }
}
