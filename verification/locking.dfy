/**
 * `lock_files`, one file at a time and over a batch: the rules for skipping
 * a path, what a successful lock does to the file system and the registry,
 * and what a failure part-way leaves behind.
 */
module Locking {
  import opened Paths
  import opened Vaults

  /**
   * Where the environment makes locking one file fail: the move into
   * storage (`shutil.move`) or the writing of the placeholder (`open`/`write`).
   */
  datatype LockFault = NoLockFault | MoveFails | MarkerWriteFails

  /** How one path of the batch fared. */
  datatype LockResult =
    | AlreadyLocked   // some registry key, with ".locked" removed, is this path
    | NotFound        // the path does not exist
    | MoveFailed      // the move into storage raised; nothing changed
    | MarkerFailed    // the content moved, the placeholder could not be written
    | Locked          // moved, placeholder written, registered

  datatype LockStep = LockStep(vault: Vault, result: LockResult)

  /** `is_already_locked`: some key of the registry, stripped of ".locked", is `p`. */
  predicate IsLocked(reg: Registry, p: Path)
    ensures reg.Valid() ==> (IsLocked(reg, p) <==> exists k :: k in reg.hidden && StripLocked(k) == p)
  {
    var found := exists i :: 0 <= i < |reg.keys| && StripLocked(reg.keys[i]) == p;
    // The order of the keys does not matter: any key of the dict will do.
    assert reg.Valid() ==> (found <==> exists k :: k in reg.hidden && StripLocked(k) == p) by {
      if reg.Valid() {
        if found {
          var i :| 0 <= i < |reg.keys| && StripLocked(reg.keys[i]) == p;
          assert reg.keys[i] in reg.hidden;
        }
        if exists k :: k in reg.hidden && StripLocked(k) == p {
          var k :| k in reg.hidden && StripLocked(k) == p;
          assert k in reg.keys;
        }
      }
    }
    found
  }

  /**
   * One iteration of the loop in `lock_files`. A move whose destination
   * already exists, or whose destination directory is missing, fails.
   */
  function LockOne(v: Vault, p: Path, f: LockFault): (s: LockStep)
    ensures s.vault.storeDir == v.storeDir
    ensures s.result != Locked ==> s.vault.reg == v.reg
  {
    var h := HiddenPath(p);
    if IsLocked(v.reg, p) then LockStep(v, AlreadyLocked)
    else if p !in v.fs then LockStep(v, NotFound)
    else if f == MoveFails || !v.storeDir || h in v.fs then LockStep(v, MoveFailed)
    else
      var moved := MoveFile(v.fs, p, h);
      if f == MarkerWriteFails then LockStep(v.(fs := moved), MarkerFailed)
      else LockStep(Vault(Put(v.reg, PlaceholderPath(p), h), moved[PlaceholderPath(p) := Marker], v.storeDir), Locked)
  }

  /**
   * The skip rules of one lock step, when it succeeds, and what each outcome
   * does to the registry: a skipped path or a failed move changes nothing, a
   * failed placeholder write leaves the registry alone, and a success
   * registers the placeholder with the storage path. The registry stays a
   * dict whose keys are placeholders and whose values lie in storage.
   */
  lemma LockOneSpec(v: Vault, p: Path, f: LockFault)
    ensures var s := LockOne(v, p, f);
      && (s.result == AlreadyLocked <==> IsLocked(v.reg, p))
      && (s.result == NotFound <==> !IsLocked(v.reg, p) && p !in v.fs)
      && (s.result == Locked <==>
            !IsLocked(v.reg, p) && p in v.fs && f == NoLockFault && v.storeDir && HiddenPath(p) !in v.fs)
      && (s.result in {AlreadyLocked, NotFound, MoveFailed} ==> s.vault == v)
      && s.vault.storeDir == v.storeDir
      && (s.result == MarkerFailed ==> s.vault.reg == v.reg)
      && (s.result == Locked ==> s.vault.reg == Put(v.reg, PlaceholderPath(p), HiddenPath(p)))
      && (v.reg.Valid() ==> s.vault.reg.Valid())
      && (v.reg.WellFormed() ==> s.vault.reg.WellFormed())
  {
    HiddenPathKeepsName(p);
  }

  /**
   * What a lock step that got past the move did to the file system: the
   * content left `p` for its storage slot, and on full success a placeholder
   * holding the marker text appeared at `p + ".locked"`. Nothing else moved.
   */
  lemma LockOneMovesContent(v: Vault, p: Path, f: LockFault)
    requires LockOne(v, p, f).result in {MarkerFailed, Locked}
    ensures var s := LockOne(v, p, f);
      && p in v.fs && p !in s.vault.fs
      && HiddenPath(p) in s.vault.fs && s.vault.fs[HiddenPath(p)] == v.fs[p]
      && (s.result == MarkerFailed ==> SameElsewhere(v.fs, s.vault.fs, {p, HiddenPath(p)}))
      && (s.result == Locked ==>
            && PlaceholderPath(p) in s.vault.fs && s.vault.fs[PlaceholderPath(p)] == Marker
            && SameElsewhere(v.fs, s.vault.fs, {p, HiddenPath(p), PlaceholderPath(p)}))
  {
    PlaceholderDistinct(p);
  }

  /** The fault the environment injects at position `i` (none past the end). */
  function LockFaultAt(faults: seq<LockFault>, i: nat): LockFault {
    if i < |faults| then faults[i] else NoLockFault
  }

  datatype LockBatch = LockBatch(vault: Vault, results: seq<LockResult>)

  /**
   * The first `n` paths of `pending_files`, processed in order; a failure on
   * one path does not stop the others.
   */
  function LockUpTo(v: Vault, ps: seq<Path>, faults: seq<LockFault>, n: nat): (b: LockBatch)
    requires n <= |ps|
    ensures |b.results| == n
  {
    if n == 0 then LockBatch(v, [])
    else
      var prev := LockUpTo(v, ps, faults, n - 1);
      var s := LockOne(prev.vault, ps[n - 1], LockFaultAt(faults, n - 1));
      LockBatch(s.vault, prev.results + [s.result])
  }

  // ---------------------------------------------------------------------
  // Lemmas
  // ---------------------------------------------------------------------

  /**
   * A batch only adds keys, never removes one, and keeps the registry a
   * dict of placeholders to storage paths.
   */
  lemma {:induction false} LockUpToPreserves(v: Vault, ps: seq<Path>, faults: seq<LockFault>, n: nat)
    requires n <= |ps|
    ensures var b := LockUpTo(v, ps, faults, n);
      && b.vault.storeDir == v.storeDir
      && v.reg.keys <= b.vault.reg.keys
      && (v.reg.Valid() ==> b.vault.reg.Valid())
      && (v.reg.WellFormed() ==> b.vault.reg.WellFormed())
  {
    if n > 0 {
      var prev := LockUpTo(v, ps, faults, n - 1);
      LockUpToPreserves(v, ps, faults, n - 1);
      LockOneSpec(prev.vault, ps[n - 1], LockFaultAt(faults, n - 1));
    }
  }

  /** One more path of the batch: its step, and one more in the count if it was locked. */
  lemma LockUpToStep(v: Vault, ps: seq<Path>, faults: seq<LockFault>, n: nat)
    requires n < |ps|
    ensures var prev := LockUpTo(v, ps, faults, n);
            var s := LockOne(prev.vault, ps[n], LockFaultAt(faults, n));
            && LockUpTo(v, ps, faults, n + 1).vault == s.vault
            && Count(LockUpTo(v, ps, faults, n + 1).results, Locked)
               == Count(prev.results, Locked) + (if s.result == Locked then 1 else 0)
  {
    var prev := LockUpTo(v, ps, faults, n);
    var s := LockOne(prev.vault, ps[n], LockFaultAt(faults, n));
    assert (prev.results + [s.result])[..|prev.results|] == prev.results;
  }

  /**
   * Locking a path a second time is a no-op: the path is gone from its old
   * place, and when it has no ".locked" inside, the registry already
   * names it, so the second attempt is reported as already locked.
   */
  lemma LockTwiceIsNoop(v: Vault, p: Path, f: LockFault, g: LockFault)
    requires v.reg.Valid()
    requires LockOne(v, p, f).result == Locked
    ensures var w := LockOne(v, p, f).vault;
            var again := LockOne(w, p, g);
            && again.vault == w
            && again.result in {AlreadyLocked, NotFound}
            && (!HasTag(p) ==> again.result == AlreadyLocked)
  {
    var w := LockOne(v, p, f).vault;
    LockOneSpec(v, p, f);
    LockOneSpec(w, p, g);
    PlaceholderDistinct(p);
    assert p !in w.fs;
    if !HasTag(p) {
      var ph := PlaceholderPath(p);
      PlaceholderRoundTrip(p);
      assert ph in w.reg.hidden && StripLocked(ph) == p;
    }
  }

  /**
   * When a path with no ".locked" inside is not locked, its placeholder is
   * not a key of the registry.
   */
  lemma PlaceholderUnregistered(reg: Registry, p: Path)
    requires reg.Valid() && !IsLocked(reg, p) && !HasTag(p)
    ensures PlaceholderPath(p) !in reg.hidden
  {
    PlaceholderRoundTrip(p);
    assert forall i :: 0 <= i < |reg.keys| ==> reg.keys[i] != PlaceholderPath(p);
  }

  /** Results already produced are not revised by later steps. */
  lemma {:induction false} LockResultsStable(v: Vault, ps: seq<Path>, faults: seq<LockFault>, m: nat, n: nat)
    requires m <= n <= |ps|
    ensures LockUpTo(v, ps, faults, n).results[..m] == LockUpTo(v, ps, faults, m).results
    decreases n
  {
    if m == n {
      LockResultsAll(v, ps, faults, m);
    } else {
      LockResultsStable(v, ps, faults, m, n - 1);
      LockResultsStableStep(v, ps, faults, m, n);
    }
  }

  lemma LockResultsAll(v: Vault, ps: seq<Path>, faults: seq<LockFault>, m: nat)
    requires m <= |ps|
    ensures LockUpTo(v, ps, faults, m).results[..m] == LockUpTo(v, ps, faults, m).results
  {
  }

  lemma LockResultsStableStep(v: Vault, ps: seq<Path>, faults: seq<LockFault>, m: nat, n: nat)
    requires m < n <= |ps|
    requires LockUpTo(v, ps, faults, n - 1).results[..m] == LockUpTo(v, ps, faults, m).results
    ensures LockUpTo(v, ps, faults, n).results[..m] == LockUpTo(v, ps, faults, m).results
  {
    LockUpToExtends(v, ps, faults, n);
    var rs := LockUpTo(v, ps, faults, n).results;
    assert rs[..m] == rs[..n - 1][..m];
  }

  /** A step appends one result to those before it. */
  lemma LockUpToExtends(v: Vault, ps: seq<Path>, faults: seq<LockFault>, n: nat)
    requires 0 < n <= |ps|
    ensures LockUpTo(v, ps, faults, n).results[..n - 1] == LockUpTo(v, ps, faults, n - 1).results
  {
    var prev := LockUpTo(v, ps, faults, n - 1);
    var s := LockOne(prev.vault, ps[n - 1], LockFaultAt(faults, n - 1));
    assert LockUpTo(v, ps, faults, n).results == prev.results + [s.result];
  }

  /** A successful lock step registers the placeholder with the storage path. */
  lemma LockOneRegisters(w: Vault, q: Path, f: LockFault)
    requires LockOne(w, q, f).result == Locked
    ensures var reg := LockOne(w, q, f).vault.reg;
            PlaceholderPath(q) in reg.hidden && reg.hidden[PlaceholderPath(q)] == HiddenPath(q)
  {
    LockOneSpec(w, q, f);
  }

  /**
   * A lock step keeps an entry `k` with its value `h`, unless it is the
   * placeholder of the path locked, registered with another storage path.
   */
  lemma LockOneKeepsEntry(w: Vault, q: Path, f: LockFault, k: Path, h: Path)
    requires k in w.reg.hidden && w.reg.hidden[k] == h
    requires k == PlaceholderPath(q) ==> h == HiddenPath(q)
    ensures var reg := LockOne(w, q, f).vault.reg;
            k in reg.hidden && reg.hidden[k] == h
  {
    LockOneSpec(w, q, f);
  }

  /**
   * A file locked during the batch is still registered at the end, under its
   * placeholder and with its hidden location.
   */
  lemma {:induction false} LockedEntryStays(v: Vault, ps: seq<Path>, faults: seq<LockFault>, i: nat, n: nat)
    requires i < n <= |ps|
    requires LockUpTo(v, ps, faults, n).results[i] == Locked
    ensures var reg := LockUpTo(v, ps, faults, n).vault.reg;
            PlaceholderPath(ps[i]) in reg.hidden && reg.hidden[PlaceholderPath(ps[i])] == HiddenPath(ps[i])
    decreases n
  {
    var prev := LockUpTo(v, ps, faults, n - 1);
    var q, f := ps[n - 1], LockFaultAt(faults, n - 1);
    assert LockUpTo(v, ps, faults, n).results == prev.results + [LockOne(prev.vault, q, f).result];
    if i == n - 1 {
      LockOneRegisters(prev.vault, q, f);
    } else {
      assert prev.results[i] == Locked;
      LockedEntryStays(v, ps, faults, i, n - 1);
      if PlaceholderPath(ps[i]) == PlaceholderPath(q) {
        PlaceholderInjective(ps[i], q);
      }
      LockOneKeepsEntry(prev.vault, q, f, PlaceholderPath(ps[i]), HiddenPath(ps[i]));
    }
  }

  /** A lock step never takes away a file of the storage directory. */
  lemma LockOneKeepsStored(w: Vault, q: Path, f: LockFault, h: Path)
    requires h in w.fs && HiddenPath(h) == h
    ensures h in LockOne(w, q, f).vault.fs
  {
    var s := LockOne(w, q, f);
    if s.result == Locked || s.result == MarkerFailed {
      LockOneMovesContent(w, q, f);
      assert h != q && h != HiddenPath(q);
      if s.result == MarkerFailed {
        assert h !in {q, HiddenPath(q)};
      } else if h != PlaceholderPath(q) {
        assert h !in {q, HiddenPath(q), PlaceholderPath(q)};
      }
    }
  }

  /** The content of a file locked at step `i` stays in storage for the rest of the batch. */
  lemma {:induction false} StoredCopyStays(v: Vault, ps: seq<Path>, faults: seq<LockFault>, i: nat, n: nat)
    requires i < n <= |ps|
    requires LockUpTo(v, ps, faults, n).results[i] == Locked
    ensures HiddenPath(ps[i]) in LockUpTo(v, ps, faults, n).vault.fs
    decreases n
  {
    var prev := LockUpTo(v, ps, faults, n - 1);
    if i < n - 1 {
      assert prev.results[i] == LockUpTo(v, ps, faults, n).results[i];
      StoredCopyStays(v, ps, faults, i, n - 1);
      HiddenPathIdempotent(ps[i]);
      LockOneKeepsStored(prev.vault, ps[n - 1], LockFaultAt(faults, n - 1), HiddenPath(ps[i]));
    }
  }

  /**
   * A path listed twice in one batch is locked at most once: after the
   * first lock its storage slot is taken, so a second move there fails.
   */
  lemma LockedAtMostOnce(v: Vault, ps: seq<Path>, faults: seq<LockFault>, i: nat, j: nat)
    requires i < j < |ps| && ps[i] == ps[j]
    ensures var rs := LockUpTo(v, ps, faults, |ps|).results;
            !(rs[i] == Locked && rs[j] == Locked)
  {
    var rs := LockUpTo(v, ps, faults, |ps|).results;
    if rs[i] == Locked {
      LockResultsStable(v, ps, faults, j, |ps|);
      LockResultsStable(v, ps, faults, j + 1, |ps|);
      assert LockUpTo(v, ps, faults, j).results[i] == Locked;
      StoredCopyStays(v, ps, faults, i, j);
      LockOneSpec(LockUpTo(v, ps, faults, j).vault, ps[j], LockFaultAt(faults, j));
      assert rs[j] == LockUpTo(v, ps, faults, j + 1).results[j];
    }
  }
}
