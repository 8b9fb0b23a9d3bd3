/**
 * `update_locked_list`: the list of locked files shown to the user, one
 * item per registry key.
 */
module Display {
  import opened Paths

  /** A list item: the text shown, and the registry key it carries. */
  datatype Item = Item(text: string, key: Path)

  /**
   * The items for `keys`, in key order: each is labelled with the base name
   * of the key with every ".locked" removed, and carries the key itself.
   */
  function Listing(keys: seq<Path>): (items: seq<Item>)
    ensures |items| == |keys|
    ensures forall i :: 0 <= i < |keys| ==>
              items[i].key == keys[i] && items[i].text == Basename(StripLocked(keys[i]))
  {
    if keys == [] then []
    else
      var k := keys[|keys| - 1];
      Listing(keys[..|keys| - 1]) + [Item(Basename(StripLocked(k)), k)]
  }

  /**
   * The label of a locked file is its own name, provided its path contains
   * no ".locked"; it never contains a separator.
   */
  lemma LabelOfLockedFile(p: Path)
    requires !HasTag(p)
    ensures Basename(StripLocked(PlaceholderPath(p))) == Basename(p)
    ensures NoSep(Basename(StripLocked(PlaceholderPath(p))))
  {
    PlaceholderRoundTrip(p);
    BasenameIsLastComponent(p);
  }
}
