/**
 * Path derivations used by OneLock: the placeholder name of a locked file,
 * its hidden location inside the protected storage directory, and the
 * recovery of the original path from a placeholder with Python's
 * `str.replace(".locked", "")`.
 */
module Paths {

  type Path = string

  /** Tag appended to a file's path to name its placeholder. */
  const LockedTag: string := ".locked"

  /** Separator that `os.path.join` inserts on Windows. */
  const Sep: char := '\\'

  /**
   * Stand-in for PROTECTED_DIR (the `.protected_files` directory under the
   * application's data directory). Its real value depends on where the
   * executable lives; the proofs only use that it is a fixed string.
   */
  const ProtectedDir: Path := "data\\.protected_files"

  /** Both separators `ntpath.basename` splits on. */
  predicate IsSep(c: char) {
    c == '/' || c == '\\'
  }

  predicate NoSep(s: string) {
    forall i :: 0 <= i < |s| ==> !IsSep(s[i])
  }

  /** An occurrence of ".locked" starts at index `i` of `s`. */
  predicate TagAt(s: string, i: int) {
    0 <= i && i + |LockedTag| <= |s| && s[i..i + |LockedTag|] == LockedTag
  }

  /** `s` contains ".locked" somewhere. */
  predicate HasTag(s: string) {
    exists i :: 0 <= i < |s| && TagAt(s, i)
  }

  predicate EndsWithTag(s: string) {
    |LockedTag| <= |s| && s[|s| - |LockedTag|..] == LockedTag
  }

  /**
   * Python's `s.replace(".locked", "")`: scanning from the left, every
   * non-overlapping occurrence of ".locked" is removed, wherever it sits.
   */
  function StripLocked(s: string): (r: string)
    ensures |r| <= |s|
    decreases |s|
  {
    if |s| < |LockedTag| then s
    else if s[..|LockedTag|] == LockedTag then StripLocked(s[|LockedTag|..])
    else [s[0]] + StripLocked(s[1..])
  }

  /** Placeholder written next to a locked file: `file_path + ".locked"`. */
  function PlaceholderPath(p: Path): (r: Path)
    ensures |r| == |p| + |LockedTag| && r[..|p|] == p && EndsWithTag(r)
  {
    p + LockedTag
  }

  /**
   * `os.path.basename` on Windows paths (drive prefixes not modelled): the
   * longest suffix of `p` that holds no separator.
   */
  function Basename(p: Path): (r: Path)
    ensures |r| <= |p| && NoSep(r)
  {
    if p == [] || IsSep(p[|p| - 1]) then []
    else Basename(p[..|p| - 1]) + [p[|p| - 1]]
  }

  /** `Basename(p)` is a suffix of `p`. */
  lemma {:induction false} BasenameIsSuffix(p: Path)
    ensures |Basename(p)| <= |p| && Basename(p) == p[|p| - |Basename(p)|..]
  {
    if p != [] && !IsSep(p[|p| - 1]) {
      var init, c := p[..|p| - 1], p[|p| - 1];
      BasenameIsSuffix(init);
      var k := |init| - |Basename(init)|;
      assert p[k..] == init[k..] + [c];
    }
  }

  /** Unless `Basename(p)` is all of `p`, a separator comes just before it. */
  lemma {:induction false} BasenameAfterLastSep(p: Path)
    ensures |Basename(p)| < |p| ==> IsSep(p[|p| - |Basename(p)| - 1])
  {
    if p != [] && !IsSep(p[|p| - 1]) {
      var init := p[..|p| - 1];
      BasenameAfterLastSep(init);
      BasenameIsSuffix(init);
    }
  }

  /**
   * `Basename(p)` is the last component of `p`: a suffix of `p` without
   * separators, preceded in `p` by a separator unless it is all of `p`.
   */
  lemma BasenameIsLastComponent(p: Path)
    ensures var b := Basename(p);
            && |b| <= |p| && b == p[|p| - |b|..]
            && NoSep(b)
            && (|b| < |p| ==> IsSep(p[|p| - |b| - 1]))
  {
    BasenameIsSuffix(p);
    BasenameAfterLastSep(p);
  }

  /** Every path inside the protected storage directory has this prefix. */
  predicate InProtectedDir(h: Path) {
    ProtectedDir + [Sep] <= h
  }

  /**
   * Where a locked file's content goes: `os.path.join(PROTECTED_DIR,
   * os.path.basename(file_path))`. Only the base name survives, so two files
   * with the same name in different folders are sent to the same place.
   */
  function HiddenPath(p: Path): (r: Path)
    ensures InProtectedDir(r) && NoSep(r[|ProtectedDir| + 1..])
  {
    ProtectedDir + [Sep] + Basename(p)
  }

  /** Stored content lies in the protected directory and keeps the file's name. */
  lemma HiddenPathKeepsName(p: Path)
    ensures InProtectedDir(HiddenPath(p))
    ensures Basename(HiddenPath(p)) == Basename(p)
  {
    BasenameIsLastComponent(p);
    BasenameAfterSep(ProtectedDir, Basename(p));
  }

  // ---------------------------------------------------------------------
  // Lemmas about the derivations
  // ---------------------------------------------------------------------

  /** A name with no separator, joined after a separator, is the base name. */
  lemma {:induction false} BasenameAfterSep(dir: Path, name: Path)
    requires NoSep(name)
    ensures Basename(dir + [Sep] + name) == name
  {
    var p := dir + [Sep] + name;
    if name == [] {
      assert p[|p| - 1] == Sep;
    } else {
      var init := name[..|name| - 1];
      assert p[..|p| - 1] == dir + [Sep] + init;
      assert p[|p| - 1] == name[|name| - 1];
      BasenameAfterSep(dir, init);
      assert name == init + [name[|name| - 1]];
    }
  }

  lemma BasenameSnoc(p: Path, c: char)
    requires !IsSep(c)
    ensures Basename(p + [c]) == Basename(p) + [c]
  {
    assert (p + [c])[..|p|] == p;
  }

  /** Appending separator-free text extends the base name by that text. */
  lemma {:induction false} BasenameAppend(p: Path, t: string)
    requires NoSep(t)
    ensures Basename(p + t) == Basename(p) + t
    decreases |t|
  {
    if t == [] {
      assert p + t == p;
    } else {
      var init, last := t[..|t| - 1], t[|t| - 1];
      assert t == init + [last];
      var q := p + t;
      assert q == (p + init) + [last];
      assert !IsSep(last);
      BasenameAppend(p, init);
      BasenameSnoc(p + init, last);
    }
  }

  /** The hidden location of a hidden location is itself. */
  lemma HiddenPathIdempotent(p: Path)
    ensures HiddenPath(HiddenPath(p)) == HiddenPath(p)
  {
    HiddenPathKeepsName(p);
  }

  /** A file, its placeholder and its hidden location are three distinct paths. */
  lemma PlaceholderDistinct(p: Path)
    ensures PlaceholderPath(p) != p
    ensures PlaceholderPath(p) != HiddenPath(p)
  {
    assert NoSep(LockedTag);
    BasenameAppend(p, LockedTag);
    HiddenPathKeepsName(p);
    assert |Basename(PlaceholderPath(p))| == |Basename(HiddenPath(p))| + |LockedTag|;
  }

  /** Placeholders of different files are different. */
  lemma PlaceholderInjective(p: Path, q: Path)
    requires PlaceholderPath(p) == PlaceholderPath(q)
    ensures p == q
  {
    assert p == PlaceholderPath(p)[..|p|];
    assert q == PlaceholderPath(q)[..|q|];
  }

  /** If `s` has a tag at `i > 0`, its tail has one at `i - 1`. */
  lemma TagInTail(s: string, i: int)
    requires 0 < i && TagAt(s, i)
    ensures HasTag(s[1..])
  {
    assert s[1..][i - 1..i - 1 + |LockedTag|] == s[i..i + |LockedTag|];
    assert TagAt(s[1..], i - 1);
  }

  /** A tag in the tail of `s` is a tag in `s`. */
  lemma TagFromTail(s: string, i: int)
    requires |s| > 0 && TagAt(s[1..], i)
    ensures TagAt(s, i + 1)
  {
    assert s[1..][i..i + |LockedTag|] == s[i + 1..i + 1 + |LockedTag|];
  }

  /** Removing an occurrence makes the string strictly shorter. */
  lemma {:induction false} StripLockedShrinks(s: string)
    requires HasTag(s)
    ensures |StripLocked(s)| < |s|
    decreases |s|
  {
    var i :| 0 <= i < |s| && TagAt(s, i);
    if s[..|LockedTag|] != LockedTag {
      assert i != 0;
      TagInTail(s, i);
      StripLockedShrinks(s[1..]);
    }
  }

  /** Strings without ".locked" are left alone, and only those. */
  lemma {:induction false} StripLockedFixpoint(s: string)
    ensures StripLocked(s) == s <==> !HasTag(s)
    decreases |s|
  {
    if HasTag(s) {
      StripLockedShrinks(s);
    } else if |s| >= |LockedTag| {
      assert !TagAt(s, 0);
      if HasTag(s[1..]) {
        var i :| 0 <= i < |s[1..]| && TagAt(s[1..], i);
        TagFromTail(s, i);
        assert false;
      }
      StripLockedFixpoint(s[1..]);
      assert s == [s[0]] + s[1..];
    }
  }

  /**
   * A trailing ".locked" is removed and never merges with what comes before
   * it: ".locked" has no proper prefix that is also a suffix of it, so no
   * occurrence can straddle the join.
   */
  lemma {:induction false} StripLockedIgnoresTag(s: string)
    ensures StripLocked(s + LockedTag) == StripLocked(s)
    decreases |s|
  {
    var t := s + LockedTag;
    if s == [] {
      assert t == LockedTag;
      assert t[|LockedTag|..] == [];
    } else if |s| < |LockedTag| {
      // The '.' that opens the tag sits at index |s| of t[..7], where the
      // tag itself has a letter.
      assert t[..|LockedTag|][|s|] == '.';
      assert LockedTag[|s|] != '.';
      assert t[1..] == s[1..] + LockedTag;
      StripLockedIgnoresTag(s[1..]);
      assert s == [s[0]] + s[1..];
    } else if s[..|LockedTag|] == LockedTag {
      assert t[..|LockedTag|] == s[..|LockedTag|];
      assert t[|LockedTag|..] == s[|LockedTag|..] + LockedTag;
      StripLockedIgnoresTag(s[|LockedTag|..]);
    } else {
      assert t[..|LockedTag|] == s[..|LockedTag|];
      assert t[1..] == s[1..] + LockedTag;
      StripLockedIgnoresTag(s[1..]);
    }
  }

  /**
   * Lock then unlock lands a file back where it was exactly when its path
   * contains no ".locked": the original path is recovered from the
   * placeholder by removing every ".locked", not just the last one.
   */
  lemma PlaceholderRoundTrip(p: Path)
    ensures StripLocked(PlaceholderPath(p)) == p <==> !HasTag(p)
  {
    StripLockedIgnoresTag(p);
    StripLockedFixpoint(p);
  }

  /** A character other than '.' cannot open an occurrence, so it is kept. */
  lemma StripLockedCons(c: char, s: string)
    requires c != '.'
    ensures StripLocked([c] + s) == [c] + StripLocked(s)
  {
    var t := [c] + s;
    if |t| >= |LockedTag| {
      assert t[..|LockedTag|][0] != LockedTag[0];
      assert t[1..] == s;
    }
  }

  /** A leading ".locked" is removed. */
  lemma StripLockedTagFirst(s: string)
    ensures StripLocked(LockedTag + s) == StripLocked(s)
  {
    var t := LockedTag + s;
    assert t[..|LockedTag|] == LockedTag;
    assert t[|LockedTag|..] == s;
  }

  /** A concrete path that does not round-trip: "x.locked.y" comes back as "x.y". */
  lemma RoundTripLosesInnerTag()
    ensures StripLocked(PlaceholderPath("x.locked.y")) == "x.y"
  {
    var inner := LockedTag + ".y";
    StripLockedIgnoresTag("x.locked.y");
    assert "x.locked.y" == ['x'] + inner;
    StripLockedCons('x', inner);
    StripLockedTagFirst(".y");
    assert StripLocked(".y") == ".y";
  }

  /** A path that does not start with ".locked" keeps its first character. */
  lemma StripLockedKeepsHead(s: string)
    requires |s| > 0 && !TagAt(s, 0)
    ensures StripLocked(s) == [s[0]] + StripLocked(s[1..])
  {
  }

  /**
   * The text left after removing one ".locked" is not scanned again:
   * `".lo.lockedcked"` becomes `".locked"`, which still holds the tag.
   */
  lemma StripLockedDoesNotRescan()
    ensures StripLocked(".lo.lockedcked") == LockedTag
  {
    RescanHead();
    RescanMiddle();
    RescanTail();
    TagSpelled();
  }

  lemma TagSpelled()
    ensures ['.'] + ("lo" + "cked") == LockedTag
  {
  }

  lemma RescanHead()
    ensures StripLocked(".lo.lockedcked") == ['.'] + StripLocked("lo.lockedcked")
  {
    var s := ".lo.lockedcked";
    assert s[3] != LockedTag[3];
    StripLockedKeepsHead(s);
    assert s[1..] == "lo.lockedcked";
  }

  lemma RescanMiddle()
    ensures StripLocked("lo.lockedcked") == "lo" + StripLocked(".lockedcked")
  {
    RescanL();
    RescanO();
  }

  lemma RescanL()
    ensures StripLocked("lo.lockedcked") == ['l'] + StripLocked("o.lockedcked")
  {
    StripLockedCons('l', "o.lockedcked");
    assert "lo.lockedcked" == ['l'] + "o.lockedcked";
  }

  lemma RescanO()
    ensures StripLocked("o.lockedcked") == ['o'] + StripLocked(".lockedcked")
  {
    StripLockedCons('o', ".lockedcked");
    assert "o.lockedcked" == ['o'] + ".lockedcked";
  }

  lemma RescanTail()
    ensures StripLocked(".lockedcked") == "cked"
  {
    StripLockedTagFirst("cked");
    assert ".lockedcked" == LockedTag + "cked";
    assert StripLocked("cked") == "cked";
  }
}
