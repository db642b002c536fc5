/**
 * The renaming core of the AddBoneNamesSuffixes editor window: the per-node
 * rules for adding and removing a suffix, the two depth-first walks that apply
 * them in place over a bone hierarchy, and the input validation that gates
 * both walks.
 *
 * Strings are compared ordinally: `StartsWith` is Dafny's sequence-prefix
 * test, and neither names nor target entries are ever null.
 */
module AddBoneNamesSuffixes {
  import opened Wrappers
  import opened SceneGraph

  /** `name.StartsWith(prefix)`, ordinal. */
  predicate StartsWith(name: string, prefix: string) {
    prefix <= name
  }

  /** Index `i` holds the first entry of `targets` that is a prefix of `name`. */
  ghost predicate FirstPrefixAt(targets: seq<string>, name: string, i: int) {
    && 0 <= i < |targets|
    && StartsWith(name, targets[i])
    && forall j :: 0 <= j < i ==> !StartsWith(name, targets[j])
  }

  /** No entry of `targets` is a prefix of `name`. */
  ghost predicate NoPrefixIn(targets: seq<string>, name: string) {
    forall i :: 0 <= i < |targets| ==> !StartsWith(name, targets[i])
  }

  /** `p` is the first entry of `targets`, in array order, that is a prefix of `name`. */
  ghost predicate IsFirstPrefix(targets: seq<string>, name: string, p: string) {
    exists i :: FirstPrefixAt(targets, name, i) && targets[i] == p
  }

  /**
   * `Array.Find(targets, prefix => name.StartsWith(prefix))`: scans the
   * entries in array order and stops at the first one that is a prefix of
   * `name`; `None` stands for the C# null it returns when there is none.
   */
  function Find(targets: seq<string>, name: string): Option<string> {
    if |targets| == 0 then None
    else if StartsWith(name, targets[0]) then Some(targets[0])
    else Find(targets[1..], name)
  }

  /**
   * Find's result is absent exactly when no entry is a prefix of `name`, and
   * otherwise is the entry at the first index holding a prefix of `name`.
   */
  lemma {:induction false} FindIsFirstPrefix(targets: seq<string>, name: string)
    ensures Find(targets, name).None? <==> NoPrefixIn(targets, name)
    ensures Find(targets, name).Some? ==> IsFirstPrefix(targets, name, Find(targets, name).value)
  {
    if |targets| > 0 && !StartsWith(name, targets[0]) {
      var rest := targets[1..];
      FindIsFirstPrefix(rest, name);
      assert NoPrefixIn(rest, name) ==> NoPrefixIn(targets, name) by {
        if NoPrefixIn(rest, name) {
          forall i | 1 <= i < |targets| ensures !StartsWith(name, targets[i]) {
            assert targets[i] == rest[i - 1];
          }
        }
      }
      if Find(rest, name).Some? {
        var i :| FirstPrefixAt(rest, name, i) && rest[i] == Find(rest, name).value;
        assert FirstPrefixAt(targets, name, i + 1);
      }
    } else if |targets| > 0 {
      assert FirstPrefixAt(targets, name, 0);
    }
  }

  /**
   * The name one node gets from the add walk: the suffix is appended when the
   * target list is empty (meaning every node) or holds the node's name exactly.
   */
  function AddedName(name: string, suffix: string, targetBoneNames: seq<string>): string {
    if |targetBoneNames| == 0 || name in targetBoneNames then name + suffix else name
  }

  /**
   * The name one node gets from the remove walk: the first target that is a
   * prefix of the name replaces the whole name; with no such target the name
   * stays. The walk's suffix argument plays no part.
   */
  function RemovedName(name: string, targetBoneNames: seq<string>): string {
    match Find(targetBoneNames, name)
    case Some(plainBoneName) => plainBoneName
    case None => name
  }

  /**
   * AddSuffixToBoneNames: pre-order walk that appends `suffix` to every node
   * of the hierarchy whose own pre-walk name qualifies, whatever happened to
   * its parent.
   */
  method AddSuffixToBoneNames(target: Node, suffix: string, targetBoneNames: seq<string>)
    requires target.Valid()
    modifies target.Repr
    ensures forall n :: n in target.Repr ==> n.name == AddedName(old(n.name), suffix, targetBoneNames)
    decreases target.Repr
  {
    if |targetBoneNames| == 0 || target.name in targetBoneNames {
      target.name := target.name + suffix;
    }

    var i := 0;
    while i < |target.children|
      invariant 0 <= i <= |target.children|
      invariant target.name == AddedName(old(target.name), suffix, targetBoneNames)
      invariant forall j, n :: 0 <= j < i && n in target.children[j].Repr ==>
                  n.name == AddedName(old(n.name), suffix, targetBoneNames)
      invariant forall j, n :: i <= j < |target.children| && n in target.children[j].Repr ==>
                  n.name == old(n.name)
    {
      ghost var child := target.children[i];
      assert child.Valid() && child.Repr <= target.Repr && target !in child.Repr;
      assert forall j :: 0 <= j < |target.children| && j != i ==> child.Repr !! target.children[j].Repr;
      AddSuffixToBoneNames(target.children[i], suffix, targetBoneNames);
      i := i + 1;
    }
  }

  /** RemoveSuffix: renames one node to its first matching target, if any. */
  method RemoveSuffix(target: Node, suffix: string, targetBoneNames: seq<string>)
    modifies target`name
    ensures target.name == RemovedName(old(target.name), targetBoneNames)
  {
    var plainBoneName := Find(targetBoneNames, target.name);
    if plainBoneName.Some? {
      target.name := plainBoneName.value;
    }
  }

  /**
   * RemoveSuffixToBoneNames: pre-order walk that applies RemoveSuffix to every
   * node of the hierarchy; the suffix argument is passed along and never used.
   */
  method RemoveSuffixToBoneNames(target: Node, suffix: string, targetBoneNames: seq<string>)
    requires target.Valid()
    modifies target.Repr
    ensures forall n :: n in target.Repr ==> n.name == RemovedName(old(n.name), targetBoneNames)
    decreases target.Repr
  {
    RemoveSuffix(target, suffix, targetBoneNames);

    var i := 0;
    while i < |target.children|
      invariant 0 <= i <= |target.children|
      invariant target.name == RemovedName(old(target.name), targetBoneNames)
      invariant forall j, n :: 0 <= j < i && n in target.children[j].Repr ==>
                  n.name == RemovedName(old(n.name), targetBoneNames)
      invariant forall j, n :: i <= j < |target.children| && n in target.children[j].Repr ==>
                  n.name == old(n.name)
    {
      ghost var child := target.children[i];
      assert child.Valid() && child.Repr <= target.Repr && target !in child.Repr;
      assert forall j :: 0 <= j < |target.children| && j != i ==> child.Repr !! target.children[j].Repr;
      RemoveSuffixToBoneNames(target.children[i], suffix, targetBoneNames);
      i := i + 1;
    }
  }

  /** The message for a missing root bone, as the window shows it. */
  const RootBoneMessage := "Root Boneを指定してください。"
  /** The message for a missing suffix, as the window shows it. */
  const SuffixMessage := "Suffixを指定してください。"

  /**
   * GetErrorMessage: the validation that precedes both walks. A missing root
   * is reported before a missing (null or empty) suffix; `None` means the
   * input is acceptable.
   */
  function GetErrorMessage(selectedRootBone: Node?, suffix: Option<string>): (r: Option<string>)
    ensures selectedRootBone == null ==> r == Some(RootBoneMessage)
    ensures selectedRootBone != null ==> (r == Some(SuffixMessage) <==> suffix in {None, Some("")})
    ensures r.None? <==> selectedRootBone != null && suffix.Some? && suffix.value != ""
  {
    if selectedRootBone == null then Some(RootBoneMessage)
    else if suffix.None? || suffix.value == "" then Some(SuffixMessage)
    else None
  }

  // Properties of the per-node rules

  /** With the empty target list ("all"), the add rule appends the suffix exactly once. */
  lemma AddToAllAppendsOnce(name: string, suffix: string)
    ensures AddedName(name, suffix, []) == name + suffix
    ensures AddedName(AddedName(name, suffix, []), suffix, []) == name + suffix + suffix
  {
  }

  /**
   * With a non-empty target list and a non-empty suffix, the add rule changes
   * a name exactly when the name is an entry of the list, and then only by
   * appending the suffix.
   */
  lemma AddChangesExactlyTargets(name: string, suffix: string, targetBoneNames: seq<string>)
    requires |targetBoneNames| > 0 && suffix != ""
    ensures AddedName(name, suffix, targetBoneNames) != name <==> name in targetBoneNames
    ensures AddedName(name, suffix, targetBoneNames) in {name, name + suffix}
  {
    if name in targetBoneNames {
      assert |name + suffix| > |name|;
    }
  }

  /**
   * The remove rule either leaves a name alone, when no target is a prefix of
   * it, or replaces it with the first target in list order that is a prefix
   * of it; so a changed name is always a target and a prefix of the old name.
   */
  lemma RemovedNameIsFirstPrefix(name: string, targetBoneNames: seq<string>)
    ensures NoPrefixIn(targetBoneNames, name) ==> RemovedName(name, targetBoneNames) == name
    ensures !NoPrefixIn(targetBoneNames, name) ==>
              IsFirstPrefix(targetBoneNames, name, RemovedName(name, targetBoneNames))
    ensures RemovedName(name, targetBoneNames) != name ==>
              RemovedName(name, targetBoneNames) in targetBoneNames
              && StartsWith(name, RemovedName(name, targetBoneNames))
  {
    FindIsFirstPrefix(targetBoneNames, name);
  }

  /** Remove with the empty target list ("all") renames nothing. */
  lemma RemoveFromAllIsNoOp(name: string)
    ensures RemovedName(name, []) == name
  {
  }

  /** Being a prefix is transitive. */
  lemma StartsWithTransitive(name: string, mid: string, prefix: string)
    requires StartsWith(name, mid) && StartsWith(mid, prefix)
    ensures StartsWith(name, prefix)
  {
  }

  /** The remove rule is idempotent: a second pass changes nothing. */
  lemma RemoveIsIdempotent(name: string, targetBoneNames: seq<string>)
    ensures RemovedName(RemovedName(name, targetBoneNames), targetBoneNames)
         == RemovedName(name, targetBoneNames)
  {
    var r := Find(targetBoneNames, name);
    FindIsFirstPrefix(targetBoneNames, name);
    if r.Some? {
      var i :| FirstPrefixAt(targetBoneNames, name, i) && targetBoneNames[i] == r.value;
      var p := r.value;
      forall j | 0 <= j < i
        ensures !StartsWith(p, targetBoneNames[j])
      {
        if StartsWith(p, targetBoneNames[j]) {
          StartsWithTransitive(name, p, targetBoneNames[j]);
        }
      }
      assert FirstPrefixAt(targetBoneNames, p, i);
      FirstPrefixUnique(targetBoneNames, p, i);
    }
  }

  /** At most one index can hold the first prefix, and Remove renames to its entry. */
  lemma FirstPrefixUnique(targets: seq<string>, name: string, i: int)
    requires FirstPrefixAt(targets, name, i)
    ensures Find(targets, name) == Some(targets[i])
    ensures RemovedName(name, targets) == targets[i]
  {
    var r := Find(targets, name);
    FindIsFirstPrefix(targets, name);
    assert !NoPrefixIn(targets, name);
    var k :| FirstPrefixAt(targets, name, k) && targets[k] == r.value;
    assert !(k < i) && !(i < k);
  }

  /**
   * Add followed by Remove with the same list restores a node named by entry
   * `i` of the list, provided no earlier entry is a prefix of the suffixed name.
   */
  lemma AddThenRemoveRestores(name: string, suffix: string, targetBoneNames: seq<string>, i: int)
    requires 0 <= i < |targetBoneNames| && targetBoneNames[i] == name
    requires forall j :: 0 <= j < i ==> !StartsWith(name + suffix, targetBoneNames[j])
    ensures RemovedName(AddedName(name, suffix, targetBoneNames), targetBoneNames) == name
  {
    assert AddedName(name, suffix, targetBoneNames) == name + suffix;
    assert StartsWith(name + suffix, name);
    assert FirstPrefixAt(targetBoneNames, name + suffix, i);
    FirstPrefixUnique(targetBoneNames, name + suffix, i);
  }

  /** No entry is a prefix of another entry (which also rules out duplicates). */
  ghost predicate PrefixFree(targetBoneNames: seq<string>) {
    forall i, j :: 0 <= i < |targetBoneNames| && 0 <= j < |targetBoneNames| && i != j ==>
      !StartsWith(targetBoneNames[j], targetBoneNames[i])
  }

  /** Two prefixes of one string are prefixes of each other one way or the other. */
  lemma PrefixesAreComparable(s: string, p: string, q: string)
    requires StartsWith(s, p) && StartsWith(s, q)
    ensures StartsWith(p, q) || StartsWith(q, p)
  {
    if |p| <= |q| {
      assert p == s[..|p|] == q[..|p|];
    } else {
      assert q == s[..|q|] == p[..|q|];
    }
  }

  /**
   * For a prefix-free target list, Add followed by Remove restores every
   * targeted name whatever the suffix.
   */
  lemma PrefixFreeRoundTrip(name: string, suffix: string, targetBoneNames: seq<string>)
    requires PrefixFree(targetBoneNames) && name in targetBoneNames
    ensures RemovedName(AddedName(name, suffix, targetBoneNames), targetBoneNames) == name
  {
    var i :| 0 <= i < |targetBoneNames| && targetBoneNames[i] == name;
    forall j | 0 <= j < i
      ensures !StartsWith(name + suffix, targetBoneNames[j])
    {
      if StartsWith(name + suffix, targetBoneNames[j]) {
        PrefixesAreComparable(name + suffix, name, targetBoneNames[j]);
        assert false;
      }
    }
    AddThenRemoveRestores(name, suffix, targetBoneNames, i);
  }
}
