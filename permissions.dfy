/** `get_permissions`: the mode column of the long listing. */
module Permissions {
  import opened Tree

  /** `permissions[1:]`: everything after the first character, "" when empty. */
  function DropFirst(s: string): string
  {
    if |s| == 0 then "" else s[1..]
  }

  /** The stored type flag is dropped and re-derived: `d` when the node has a
      non-empty `contents` list, `-` otherwise (files and empty directories). */
  function Mode(item: Node): (m: string)
    ensures |m| == if |item.permissions| == 0 then 1 else |item.permissions|
    ensures m[0] == 'd' <==> HasEntries(item)
    ensures m[0] == '-' <==> !HasEntries(item)
    ensures forall i :: 1 <= i < |item.permissions| ==> m[i] == item.permissions[i]
  {
    [if HasEntries(item) then 'd' else '-'] + DropFirst(item.permissions)
  }

  /** The stored first character never reaches the output: two nodes whose
      permission strings differ only there get the same mode. */
  lemma {:induction false} ModeIgnoresStoredFlag(a: Node, b: Node)
    requires HasEntries(a) == HasEntries(b)
    requires |a.permissions| == |b.permissions|
    requires forall i :: 1 <= i < |a.permissions| ==> a.permissions[i] == b.permissions[i]
    ensures Mode(a) == Mode(b)
  {
    var ma, mb := Mode(a), Mode(b);
    assert |ma| == |mb|;
    forall i | 0 <= i < |ma| ensures ma[i] == mb[i] {
      if i > 0 {
        assert ma[i] == a.permissions[i];
      }
    }
  }
}
