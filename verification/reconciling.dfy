/**
 * `clean_missing_files`: at startup, entries whose placeholder or whose
 * stored file no longer exists are dropped from the registry.
 */
module Reconciling {
  import opened Paths
  import opened Vaults

  /**
   * The keys `clean_missing_files` collects in `keys_to_remove`: the entries
   * whose placeholder is missing, and those whose stored file is missing.
   */
  function Orphans(reg: Registry, fs: Fs): (gone: set<Path>)
    ensures gone <= reg.hidden.Keys
    ensures forall k :: k in reg.hidden && k !in fs ==> k in gone
    ensures forall k :: k in reg.hidden && reg.hidden[k] !in fs ==> k in gone
    ensures forall k :: k in reg.hidden && k in fs && reg.hidden[k] in fs ==> k !in gone
  {
    set k | k in reg.hidden && !(k in fs && reg.hidden[k] in fs)
  }

  /**
   * The registry after `clean_missing_files`: exactly the backed entries
   * survive, with their hidden paths and in their original order.
   */
  function Reconcile(reg: Registry, fs: Fs): (r: Registry)
    ensures forall k :: k in r.hidden <==> k in reg.hidden && k in fs && reg.hidden[k] in fs
    ensures forall k :: k in r.hidden ==> r.hidden[k] == reg.hidden[k]
    ensures IsSubsequence(r.keys, reg.keys)
    ensures reg.Valid() ==> r.Valid()
    ensures reg.WellFormed() ==> r.WellFormed()
  {
    var gone := Orphans(reg, fs);
    Registry(Without(reg.keys, gone), reg.hidden - gone)
  }

  /** Deleting the orphans one at a time, in any order, reconciles. */
  lemma ReconcileByRemoval(reg: Registry, fs: Fs, doomed: seq<Path>)
    requires Elems(doomed) == Orphans(reg, fs)
    ensures RemoveAll(reg, doomed) == Reconcile(reg, fs)
  {
    RemoveAllIsWithout(reg, doomed);
  }

  /** Reconciling twice against the same disk gives what reconciling once gave. */
  lemma ReconcileIdempotent(reg: Registry, fs: Fs)
    ensures Reconcile(Reconcile(reg, fs), fs) == Reconcile(reg, fs)
  {
    var r := Reconcile(reg, fs);
    assert Orphans(r, fs) == {};
    WithoutNothing(r.keys, {});
    assert r.hidden - {} == r.hidden;
  }

  /** Reconciling never grows the registry. */
  lemma ReconcileShrinks(reg: Registry, fs: Fs)
    requires reg.Valid()
    ensures |Reconcile(reg, fs).keys| <= |reg.keys|
    ensures Reconcile(reg, fs).hidden.Keys <= reg.hidden.Keys
  {
    SubsequenceNoLonger(Reconcile(reg, fs).keys, reg.keys);
  }

  lemma {:induction false} SubsequenceNoLonger(a: seq<Path>, b: seq<Path>)
    requires IsSubsequence(a, b)
    ensures |a| <= |b|
  {
    if a != [] {
      if a[0] == b[0] && IsSubsequence(a[1..], b[1..]) {
        SubsequenceNoLonger(a[1..], b[1..]);
      } else {
        SubsequenceNoLonger(a, b[1..]);
      }
    }
  }
}
