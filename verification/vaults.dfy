/**
 * The state the lock and unlock operations work on: the registry
 * (`protected_files`, an insertion-ordered dict from placeholder path to
 * hidden path) and an abstract file system (the paths that exist, with
 * their contents).
 */
module Vaults {
  import opened Paths

  type Content = string

  /** The existing paths and what each holds. */
  type Fs = map<Path, Content>

  /** Text written into every placeholder. */
  const Marker: Content := "Locked by OneLock. Use the app to unlock."

  predicate Distinct(s: seq<Path>) {
    forall i, j :: 0 <= i < j < |s| ==> s[i] != s[j]
  }

  /** `a` can be obtained from `b` by deleting elements (order kept). */
  predicate IsSubsequence(a: seq<Path>, b: seq<Path>) {
    if a == [] then true
    else if b == [] then false
    else (a[0] == b[0] && IsSubsequence(a[1..], b[1..])) || IsSubsequence(a, b[1..])
  }

  /**
   * `protected_files`: the dict's keys in insertion order, and its content.
   */
  datatype Registry = Registry(keys: seq<Path>, hidden: map<Path, Path>) {

    /** What makes the pair a dict: keys listed once each, exactly the map's. */
    ghost predicate Valid() {
      Distinct(keys) && forall k :: k in hidden <==> k in keys
    }

    /**
     * What lock/unlock keep true of entries they create: every key names a
     * placeholder and every value lies in the protected storage directory.
     */
    ghost predicate WellFormed() {
      Valid() && forall k :: k in hidden ==> EndsWithTag(k) && InProtectedDir(hidden[k])
    }
  }

  /** Registry with no entries. */
  const EmptyRegistry: Registry := Registry([], map[])

  /** `s` with every element of `d` deleted. */
  function Without(s: seq<Path>, d: set<Path>): (r: seq<Path>)
    ensures forall x :: x in r <==> x in s && x !in d
    ensures IsSubsequence(r, s)
    ensures Distinct(s) ==> Distinct(r)
  {
    if s == [] then []
    else
      var rest := Without(s[1..], d);
      if s[0] in d then rest
      else
        assert Distinct(s) ==> s[0] !in s[1..];
        [s[0]] + rest
  }

  /** Deleting what is not there changes nothing. */
  lemma {:induction false} WithoutNothing(s: seq<Path>, d: set<Path>)
    requires forall x :: x in s ==> x !in d
    ensures Without(s, d) == s
  {
    if s != [] {
      WithoutNothing(s[1..], d);
      assert s == [s[0]] + s[1..];
    }
  }

  /** Deleting one listed element of a duplicate-free sequence drops one. */
  lemma {:induction false} WithoutOne(s: seq<Path>, k: Path)
    ensures Distinct(s) && k in s ==> |Without(s, {k})| == |s| - 1
  {
    if Distinct(s) && k in s {
      if s[0] == k {
        WithoutNothing(s[1..], {k});
      } else {
        WithoutOne(s[1..], k);
      }
    }
  }

  /** Deleting in two rounds is deleting the union. */
  lemma {:induction false} WithoutTwice(s: seq<Path>, a: set<Path>, b: set<Path>)
    ensures Without(Without(s, a), b) == Without(s, a + b)
  {
    if s != [] {
      WithoutTwice(s[1..], a, b);
      if s[0] !in a {
        var w := Without(s, a);
        assert w == [s[0]] + Without(s[1..], a);
        assert w[1..] == Without(s[1..], a);
      }
    }
  }

  lemma {:induction false} WithoutAppend(s: seq<Path>, x: Path, d: set<Path>)
    ensures Without(s + [x], d) == Without(s, d) + (if x in d then [] else [x])
  {
    if s == [] {
      assert [x][1..] == [];
    } else {
      assert (s + [x])[1..] == s[1..] + [x];
      WithoutAppend(s[1..], x, d);
    }
  }

  /** Python's `d[k] = h`: a new key goes last, an existing key keeps its place. */
  function Put(reg: Registry, k: Path, h: Path): (r: Registry)
    ensures r.hidden == reg.hidden[k := h]
    ensures reg.keys <= r.keys
    ensures k in reg.hidden ==> r.keys == reg.keys
    ensures reg.Valid() ==> r.Valid()
    ensures reg.WellFormed() && EndsWithTag(k) && InProtectedDir(h) ==> r.WellFormed()
  {
    if k in reg.hidden then Registry(reg.keys, reg.hidden[k := h])
    else Registry(reg.keys + [k], reg.hidden[k := h])
  }

  /** Python's `del d[k]`, for a key that is present. */
  function Remove(reg: Registry, k: Path): (r: Registry)
    ensures r.hidden == reg.hidden - {k}
    ensures IsSubsequence(r.keys, reg.keys)
    ensures reg.Valid() ==> r.Valid()
    ensures reg.WellFormed() ==> r.WellFormed()
    ensures reg.Valid() && k in reg.hidden ==> |r.keys| == |reg.keys| - 1
  {
    WithoutOne(reg.keys, k);
    Registry(Without(reg.keys, {k}), reg.hidden - {k})
  }

  /** The elements of `s`, as a set. */
  function Elems(s: seq<Path>): set<Path> {
    set x | x in s
  }

  lemma ElemsInitLast(s: seq<Path>)
    requires s != []
    ensures Elems(s) == Elems(s[..|s| - 1]) + {s[|s| - 1]}
  {
    assert s == s[..|s| - 1] + [s[|s| - 1]];
  }

  /** `del d[k]` for each `k` of `ds`, in order. */
  function RemoveAll(reg: Registry, ds: seq<Path>): (r: Registry)
    ensures reg.Valid() ==> r.Valid()
  {
    if ds == [] then reg
    else Remove(RemoveAll(reg, ds[..|ds| - 1]), ds[|ds| - 1])
  }

  /**
   * Deleting keys one at a time is deleting them all at once: the key list
   * loses exactly them, in order, and so does the map.
   */
  lemma {:induction false} RemoveAllIsWithout(reg: Registry, ds: seq<Path>)
    ensures RemoveAll(reg, ds) == Registry(Without(reg.keys, Elems(ds)), reg.hidden - Elems(ds))
  {
    if ds == [] {
      assert Elems(ds) == {};
      WithoutNothing(reg.keys, {});
      assert reg.hidden - {} == reg.hidden;
    } else {
      var init, d := ds[..|ds| - 1], ds[|ds| - 1];
      var prev := RemoveAll(reg, init);
      RemoveAllIsWithout(reg, init);
      var gone := Elems(init);
      WithoutTwice(reg.keys, gone, {d});
      ElemsInitLast(ds);
      assert prev.hidden - {d} == reg.hidden - (gone + {d});
    }
  }

  /** Every path outside `touched` exists in both or neither, with the same content. */
  ghost predicate SameElsewhere(a: Fs, b: Fs, touched: set<Path>) {
    forall q :: q !in touched ==> (q in a <==> q in b) && (q in a ==> a[q] == b[q])
  }

  /**
   * `shutil.move(src, dst)` on the abstract file system, for a move that
   * succeeds: the content leaves `src` and appears at `dst`.
   */
  function MoveFile(fs: Fs, src: Path, dst: Path): (r: Fs)
    requires src in fs
    ensures dst in r && r[dst] == fs[src]
    ensures src != dst ==> src !in r
    ensures SameElsewhere(fs, r, {src, dst})
  {
    (fs - {src})[dst := fs[src]]
  }

  /**
   * Everything the lock and unlock steps look at: the registry, the file
   * system and whether the protected storage directory exists.
   */
  datatype Vault = Vault(reg: Registry, fs: Fs, storeDir: bool)

  /** Number of occurrences of `x` in `rs`. */
  function Count<T(==)>(rs: seq<T>, x: T): (c: nat)
    ensures c <= |rs|
  {
    if rs == [] then 0
    else Count(rs[..|rs| - 1], x) + (if rs[|rs| - 1] == x then 1 else 0)
  }

  lemma CountAppend<T>(rs: seq<T>, x: T, r: T)
    ensures Count(rs + [r], x) == Count(rs, x) + (if r == x then 1 else 0)
  {
    assert (rs + [r])[..|rs|] == rs;
  }

  lemma MapMinusTwice<K, V>(m: map<K, V>, a: set<K>, b: set<K>)
    ensures m - a - b == m - (a + b)
  {
  }
}
