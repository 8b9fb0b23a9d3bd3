/**
 * The loop of `unlock_selected_files`, one selected key at a time and over
 * the selection, and the round trip of locking then unlocking a file.
 */
module Unlocking {
  import opened Paths
  import opened Vaults
  import opened Locking

  /**
   * Where the environment makes unlocking one key fail: the move back
   * (`shutil.move`) or the removal of the placeholder (`os.remove`).
   */
  datatype UnlockFault = NoUnlockFault | RestoreFails | RemoveFails

  /** How one selected key fared. */
  datatype UnlockResult =
    | Unlocked          // content restored, placeholder deleted, entry removed
    | RestoreFailed     // the move back raised; nothing changed
    | PlaceholderKept   // content restored, but the placeholder could not be deleted
    | NotRegistered     // the key is not in the registry: KeyError ends the loop

  datatype UnlockStep = UnlockStep(vault: Vault, result: UnlockResult)

  /**
   * One iteration of the loop for a key present in the registry. The
   * registry entry is deleted only after both the move and the removal
   * succeeded. A file already at the original path is overwritten: on
   * Windows `shutil.move` falls back to copying over it when the rename
   * is refused.
   */
  function UnlockOne(v: Vault, k: Path, f: UnlockFault): (s: UnlockStep)
    requires k in v.reg.hidden
    ensures s.result != NotRegistered
  {
    var h := v.reg.hidden[k];
    var orig := StripLocked(k);
    if f == RestoreFails || h !in v.fs then UnlockStep(v, RestoreFailed)
    else
      var restored := MoveFile(v.fs, h, orig);
      if f == RemoveFails || k !in restored then UnlockStep(v.(fs := restored), PlaceholderKept)
      else UnlockStep(Vault(Remove(v.reg, k), restored - {k}, v.storeDir), Unlocked)
  }

  /**
   * When one unlock step fails, and what it does to the registry: a failed
   * move changes nothing; the entry is deleted exactly when the step fully
   * succeeded, and then the placeholder is gone too. The registry stays a
   * dict of placeholders to storage paths.
   */
  lemma UnlockOneSpec(v: Vault, k: Path, f: UnlockFault)
    requires k in v.reg.hidden
    ensures var s := UnlockOne(v, k, f);
      && (s.result == RestoreFailed <==> f == RestoreFails || v.reg.hidden[k] !in v.fs)
      && (s.result == RestoreFailed ==> s.vault == v)
      && (s.result == Unlocked ==> k !in s.vault.fs)
      && s.vault.storeDir == v.storeDir
      && s.vault.reg == (if s.result == Unlocked then Remove(v.reg, k) else v.reg)
      && (v.reg.Valid() ==> s.vault.reg.Valid())
      && (v.reg.WellFormed() ==> s.vault.reg.WellFormed())
  {
  }

  lemma PlaceholderHasTag(k: Path)
    requires EndsWithTag(k)
    ensures HasTag(k)
  {
    assert k[|k| - |LockedTag|..|k|] == k[|k| - |LockedTag|..];
    assert TagAt(k, |k| - |LockedTag|);
  }

  /**
   * What an unlock step that got past the move did to the file system: the
   * stored content is at the key with ".locked" removed, replacing whatever
   * was there, and the storage path is empty. Nothing else moved.
   */
  lemma UnlockOneRestores(v: Vault, k: Path, f: UnlockFault)
    requires k in v.reg.hidden && EndsWithTag(k)
    requires UnlockOne(v, k, f).result in {PlaceholderKept, Unlocked}
    ensures var s := UnlockOne(v, k, f);
            var h, orig := v.reg.hidden[k], StripLocked(k);
            && h in v.fs
            && orig in s.vault.fs && s.vault.fs[orig] == v.fs[h]
            && (h != orig ==> h !in s.vault.fs)
            && SameElsewhere(v.fs, s.vault.fs, {h, orig, k})
  {
    PlaceholderHasTag(k);
    StripLockedFixpoint(k);
  }

  /**
   * The entry locked from `x.locked.y` restores its content to `x.y`, a
   * different path: a file the user keeps at `x.y` is overwritten.
   */
  lemma UnlockOfInnerTagOverwrites(v: Vault)
    requires PlaceholderPath("x.locked.y") in v.reg.hidden
    requires v.reg.hidden[PlaceholderPath("x.locked.y")] in v.fs
    ensures var s := UnlockOne(v, PlaceholderPath("x.locked.y"), NoUnlockFault);
            && s.result != RestoreFailed
            && "x.y" != "x.locked.y"
            && "x.y" in s.vault.fs
            && s.vault.fs["x.y"] == v.fs[v.reg.hidden[PlaceholderPath("x.locked.y")]]
  {
    RoundTripLosesInnerTag();
  }

  /** The fault the environment injects at position `i` (none past the end). */
  function UnlockFaultAt(faults: seq<UnlockFault>, i: nat): UnlockFault {
    if i < |faults| then faults[i] else NoUnlockFault
  }

  datatype UnlockBatch = UnlockBatch(vault: Vault, results: seq<UnlockResult>)

  /** The loop stopped on a key missing from the registry. */
  predicate Interrupted(rs: seq<UnlockResult>) {
    NotRegistered in rs
  }

  /**
   * The first `n` selected keys, processed in order; a failing key does not
   * stop the others, but a key missing from the registry raises KeyError
   * (the lookup sits outside the `try`) and ends the loop there.
   */
  function UnlockUpTo(v: Vault, ks: seq<Path>, faults: seq<UnlockFault>, n: nat): (b: UnlockBatch)
    requires n <= |ks|
    ensures |b.results| <= n
    ensures !Interrupted(b.results) ==> |b.results| == n
  {
    if n == 0 then UnlockBatch(v, [])
    else
      var prev := UnlockUpTo(v, ks, faults, n - 1);
      if Interrupted(prev.results) then prev
      else if ks[n - 1] !in prev.vault.reg.hidden then
        UnlockBatch(prev.vault, prev.results + [NotRegistered])
      else
        var s := UnlockOne(prev.vault, ks[n - 1], UnlockFaultAt(faults, n - 1));
        UnlockBatch(s.vault, prev.results + [s.result])
  }

  // ---------------------------------------------------------------------
  // Lemmas
  // ---------------------------------------------------------------------

  /** The loop keeps the registry a dict of placeholders to storage paths. */
  lemma {:induction false} UnlockUpToPreserves(v: Vault, ks: seq<Path>, faults: seq<UnlockFault>, n: nat)
    requires n <= |ks|
    ensures var b := UnlockUpTo(v, ks, faults, n);
      && b.vault.storeDir == v.storeDir
      && (v.reg.Valid() ==> b.vault.reg.Valid())
      && (v.reg.WellFormed() ==> b.vault.reg.WellFormed())
  {
    if n > 0 {
      var prev := UnlockUpTo(v, ks, faults, n - 1);
      UnlockUpToPreserves(v, ks, faults, n - 1);
      if !Interrupted(prev.results) && ks[n - 1] in prev.vault.reg.hidden {
        UnlockOneSpec(prev.vault, ks[n - 1], UnlockFaultAt(faults, n - 1));
      }
    }
  }

  /**
   * One more key of an uninterrupted loop, registered: it takes its step and
   * adds one to the count if it was unlocked.
   */
  lemma UnlockUpToStep(v: Vault, ks: seq<Path>, faults: seq<UnlockFault>, n: nat)
    requires n < |ks|
    requires !Interrupted(UnlockUpTo(v, ks, faults, n).results)
    requires ks[n] in UnlockUpTo(v, ks, faults, n).vault.reg.hidden
    ensures var prev := UnlockUpTo(v, ks, faults, n);
            var s := UnlockOne(prev.vault, ks[n], UnlockFaultAt(faults, n));
            var next := UnlockUpTo(v, ks, faults, n + 1);
            && next.vault == s.vault
            && next.results == prev.results + [s.result]
            && !Interrupted(next.results)
            && Count(next.results, Unlocked) == Count(prev.results, Unlocked) + (if s.result == Unlocked then 1 else 0)
  {
    var prev := UnlockUpTo(v, ks, faults, n);
    var r := UnlockOne(prev.vault, ks[n], UnlockFaultAt(faults, n)).result;
    CountAppend(prev.results, Unlocked, r);
  }

  /** One more key of an uninterrupted loop, missing from the registry: the loop is interrupted. */
  lemma UnlockUpToMissing(v: Vault, ks: seq<Path>, faults: seq<UnlockFault>, n: nat)
    requires n < |ks|
    requires !Interrupted(UnlockUpTo(v, ks, faults, n).results)
    requires ks[n] !in UnlockUpTo(v, ks, faults, n).vault.reg.hidden
    ensures var prev := UnlockUpTo(v, ks, faults, n);
            var next := UnlockUpTo(v, ks, faults, n + 1);
            && next.vault == prev.vault
            && next.results == prev.results + [NotRegistered]
            && Interrupted(next.results)
            && Count(next.results, Unlocked) == Count(prev.results, Unlocked)
  {
    var prev := UnlockUpTo(v, ks, faults, n);
    CountAppend(prev.results, Unlocked, NotRegistered);
  }

  /** Once the loop is interrupted, the later keys are never looked at. */
  lemma {:induction false} UnlockStopsAtMissingKey(v: Vault, ks: seq<Path>, faults: seq<UnlockFault>, m: nat, n: nat)
    requires m <= n <= |ks|
    requires Interrupted(UnlockUpTo(v, ks, faults, m).results)
    ensures UnlockUpTo(v, ks, faults, n) == UnlockUpTo(v, ks, faults, m)
    decreases n
  {
    if m < n {
      UnlockStopsAtMissingKey(v, ks, faults, m, n - 1);
    }
  }

  /** The keys unlocked in the processed part of the selection: `ks[i]` for each `rs[i] == Unlocked`. */
  function ReleasedKeys(ks: seq<Path>, rs: seq<UnlockResult>): set<Path>
    requires |rs| <= |ks|
  {
    if rs == [] then {}
    else
      var i := |rs| - 1;
      ReleasedKeys(ks, rs[..i]) + (if rs[i] == Unlocked then {ks[i]} else {})
  }

  lemma ReleasedKeysAppend(ks: seq<Path>, rs: seq<UnlockResult>, r: UnlockResult)
    requires |rs| < |ks|
    ensures ReleasedKeys(ks, rs + [r]) == ReleasedKeys(ks, rs) + (if r == Unlocked then {ks[|rs|]} else {})
  {
    assert (rs + [r])[..|rs|] == rs;
  }

  /** Only keys from the processed part of the selection are released. */
  lemma {:induction false} ReleasedKeysSelected(ks: seq<Path>, rs: seq<UnlockResult>, x: Path)
    requires |rs| <= |ks|
    ensures x in ReleasedKeys(ks, rs) ==> exists j :: 0 <= j < |rs| && ks[j] == x
  {
    if rs != [] && x in ReleasedKeys(ks, rs) {
      var i := |rs| - 1;
      ReleasedKeysSelected(ks, rs[..i], x);
      if x !in ReleasedKeys(ks, rs[..i]) {
        assert ks[i] == x;
      }
    }
  }

  /** The registry the loop has left after `n` keys: the initial one minus the keys released so far. */
  ghost predicate RemovedReleased(v: Vault, ks: seq<Path>, faults: seq<UnlockFault>, n: nat)
    requires n <= |ks|
  {
    var b := UnlockUpTo(v, ks, faults, n);
    b.vault.reg.hidden == v.reg.hidden - ReleasedKeys(ks, b.results)
  }

  /** One more key keeps the loop's registry equal to the initial one minus the released keys. */
  lemma UnlockRemovesStep(v: Vault, ks: seq<Path>, faults: seq<UnlockFault>, n: nat)
    requires n < |ks| && RemovedReleased(v, ks, faults, n)
    ensures RemovedReleased(v, ks, faults, n + 1)
  {
    var prev := UnlockUpTo(v, ks, faults, n);
    if Interrupted(prev.results) {
      assert UnlockUpTo(v, ks, faults, n + 1) == prev;
    } else if ks[n] in prev.vault.reg.hidden {
      var k, f := ks[n], UnlockFaultAt(faults, n);
      var s := UnlockOne(prev.vault, k, f);
      UnlockUpToStep(v, ks, faults, n);
      UnlockOneSpec(prev.vault, k, f);
      ReleasedKeysAppend(ks, prev.results, s.result);
      if s.result == Unlocked {
        MapMinusTwice(v.reg.hidden, ReleasedKeys(ks, prev.results), {k});
      }
    } else {
      UnlockUpToMissing(v, ks, faults, n);
      ReleasedKeysAppend(ks, prev.results, NotRegistered);
    }
  }

  /**
   * The registry after the loop is the one before it minus exactly the keys
   * that were fully unlocked: a key whose move or removal failed stays
   * registered, and every surviving entry keeps its hidden path.
   */
  lemma {:induction false} UnlockRemovesExactly(v: Vault, ks: seq<Path>, faults: seq<UnlockFault>, n: nat)
    requires n <= |ks|
    ensures var b := UnlockUpTo(v, ks, faults, n);
            b.vault.reg.hidden == v.reg.hidden - ReleasedKeys(ks, b.results)
    decreases n
  {
    if n == 0 {
      assert v.reg.hidden - {} == v.reg.hidden;
    } else {
      UnlockRemovesExactly(v, ks, faults, n - 1);
      UnlockRemovesStep(v, ks, faults, n - 1);
    }
  }

  /** A registered key not unlocked before is still registered at its turn, so the loop goes on. */
  lemma SelectionStep(v: Vault, ks: seq<Path>, faults: seq<UnlockFault>, n: nat)
    requires n < |ks| && Distinct(ks)
    requires forall k :: k in ks ==> k in v.reg.hidden
    requires !Interrupted(UnlockUpTo(v, ks, faults, n).results)
    ensures !Interrupted(UnlockUpTo(v, ks, faults, n + 1).results)
  {
    var prev := UnlockUpTo(v, ks, faults, n);
    UnlockRemovesExactly(v, ks, faults, n);
    ReleasedKeysSelected(ks, prev.results, ks[n]);
    assert forall j :: 0 <= j < n ==> ks[j] != ks[n];
    UnlockUpToStep(v, ks, faults, n);
  }

  /**
   * The KeyError cannot happen for a selection taken from an up-to-date
   * list: when the selected keys are distinct and all registered, each is
   * still registered when its turn comes, so the loop runs to the end.
   */
  lemma {:induction false} RegisteredSelectionCompletes(v: Vault, ks: seq<Path>, faults: seq<UnlockFault>, n: nat)
    requires n <= |ks| && Distinct(ks)
    requires forall k :: k in ks ==> k in v.reg.hidden
    ensures !Interrupted(UnlockUpTo(v, ks, faults, n).results)
    decreases n
  {
    if n > 0 {
      RegisteredSelectionCompletes(v, ks, faults, n - 1);
      SelectionStep(v, ks, faults, n - 1);
    }
  }

  /** Keys that were not selected are left as they were. */
  lemma UnselectedUntouched(v: Vault, ks: seq<Path>, faults: seq<UnlockFault>, k: Path)
    requires k in v.reg.hidden && k !in ks
    ensures var reg := UnlockUpTo(v, ks, faults, |ks|).vault.reg;
            k in reg.hidden && reg.hidden[k] == v.reg.hidden[k]
  {
    var b := UnlockUpTo(v, ks, faults, |ks|);
    UnlockRemovesExactly(v, ks, faults, |ks|);
    ReleasedKeysSelected(ks, b.results, k);
  }

  /** After `n` keys, the entries left plus the keys unlocked are the entries before the loop. */
  ghost predicate CountAddsUp(v: Vault, ks: seq<Path>, faults: seq<UnlockFault>, n: nat)
    requires n <= |ks|
  {
    var b := UnlockUpTo(v, ks, faults, n);
    |b.vault.reg.keys| + Count(b.results, Unlocked) == |v.reg.keys|
  }

  /** One more key keeps the sum. */
  lemma UnlockCountStep(v: Vault, ks: seq<Path>, faults: seq<UnlockFault>, n: nat)
    requires n < |ks| && v.reg.Valid() && CountAddsUp(v, ks, faults, n)
    ensures CountAddsUp(v, ks, faults, n + 1)
  {
    var prev := UnlockUpTo(v, ks, faults, n);
    if Interrupted(prev.results) {
      assert UnlockUpTo(v, ks, faults, n + 1) == prev;
    } else if ks[n] in prev.vault.reg.hidden {
      UnlockUpToPreserves(v, ks, faults, n);
      UnlockOneSpec(prev.vault, ks[n], UnlockFaultAt(faults, n));
      UnlockUpToStep(v, ks, faults, n);
    } else {
      UnlockUpToMissing(v, ks, faults, n);
    }
  }

  lemma CountAddsUpFirst(v: Vault, ks: seq<Path>, faults: seq<UnlockFault>)
    ensures CountAddsUp(v, ks, faults, 0)
  {
  }

  lemma {:induction false} CountAddsUpAll(v: Vault, ks: seq<Path>, faults: seq<UnlockFault>, n: nat)
    requires n <= |ks| && v.reg.Valid()
    ensures CountAddsUp(v, ks, faults, n)
    decreases n
  {
    if n == 0 {
      CountAddsUpFirst(v, ks, faults);
    } else {
      CountAddsUpAll(v, ks, faults, n - 1);
      UnlockCountStep(v, ks, faults, n - 1);
    }
  }

  /** The count shown to the user is the number of entries the loop removed. */
  lemma UnlockCountMatchesRemoved(v: Vault, ks: seq<Path>, faults: seq<UnlockFault>, n: nat)
    requires n <= |ks| && v.reg.Valid()
    ensures var b := UnlockUpTo(v, ks, faults, n);
            |b.vault.reg.keys| + Count(b.results, Unlocked) == |v.reg.keys|
  {
    CountAddsUpAll(v, ks, faults, n);
  }

  /** Deleting a key that `Put` has just appended gives back the registry. */
  lemma RemoveUndoesPut(reg: Registry, k: Path, h: Path)
    requires reg.Valid() && k !in reg.hidden
    ensures Remove(Put(reg, k, h), k) == reg
  {
    assert k !in reg.keys;
    WithoutAppend(reg.keys, k, {k});
    WithoutNothing(reg.keys, {k});
    assert Without(reg.keys + [k], {k}) == reg.keys;
    assert reg.hidden[k := h] - {k} == reg.hidden;
  }

  /**
   * Moving `p` into storage at `h` and writing a placeholder at `ph`, then
   * moving the content back and deleting `ph`, leaves the file system as it
   * was, except that whatever sat at `ph` is gone.
   */
  lemma MoveBackUndoesMove(fs: Fs, p: Path, h: Path, ph: Path, marker: Content)
    requires p in fs && h !in fs && p != ph && h != ph
    ensures var w := MoveFile(fs, p, h)[ph := marker];
            MoveFile(w, h, p) - {ph} == fs - {ph}
  {
    var w := MoveFile(fs, p, h)[ph := marker];
    var r := MoveFile(w, h, p) - {ph};
    forall q
      ensures (q in r <==> q in fs - {ph}) && (q in r ==> r[q] == fs[q])
    {
      if q != p && q != h && q != ph {
        assert q !in {p, h};
        assert q !in {h, p};
      }
    }
  }

  /**
   * Round trip: a file whose path contains no ".locked", locked and then
   * unlocked with no failure, is back at its path with its content, the
   * registry is as before, and the only other trace is that a file that
   * already sat at the placeholder path is gone (it was overwritten by the
   * placeholder, then deleted with it).
   */
  lemma LockThenUnlock(v: Vault, p: Path)
    requires v.reg.Valid() && !HasTag(p)
    requires LockOne(v, p, NoLockFault).result == Locked
    ensures var w := LockOne(v, p, NoLockFault).vault;
            && PlaceholderPath(p) in w.reg.hidden
            && var u := UnlockOne(w, PlaceholderPath(p), NoUnlockFault);
               && u.result == Unlocked
               && u.vault.reg == v.reg
               && u.vault.fs == v.fs - {PlaceholderPath(p)}
               && u.vault.storeDir == v.storeDir
  {
    var ph, h := PlaceholderPath(p), HiddenPath(p);
    LockOneSpec(v, p, NoLockFault);
    PlaceholderDistinct(p);
    PlaceholderRoundTrip(p);
    PlaceholderUnregistered(v.reg, p);
    var w := LockOne(v, p, NoLockFault).vault;
    assert w == Vault(Put(v.reg, ph, h), MoveFile(v.fs, p, h)[ph := Marker], v.storeDir);
    var restored := MoveFile(w.fs, h, p);
    assert ph in restored;
    var u := UnlockOne(w, ph, NoUnlockFault);
    assert u == UnlockStep(Vault(Remove(w.reg, ph), restored - {ph}, v.storeDir), Unlocked);
    RemoveUndoesPut(v.reg, ph, h);
    MoveBackUndoesMove(v.fs, p, h, ph, Marker);
  }
}
