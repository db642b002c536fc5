/**
 * The walks run on small hierarchies, and what the add/remove pair does with
 * the shipped presets: the NecoMaid-RICH list round-trips, while the U and
 * Mishe lists each hold an entry that is a prefix of a later one, so Remove
 * cuts the later bone back to the earlier name.
 */
module Scenarios {
  import opened SceneGraph
  import opened AddBoneNamesSuffixes
  import opened BoneNamesTemplates

  /**
   * Root "Hips" with child "Neck", suffix "_L", targets ["Hips"]: only the
   * root gains the suffix, and Remove brings it back.
   */
  method AddThenRemoveOnHips() returns (rootAdded: string, childAdded: string, rootRemoved: string, childRemoved: string)
    ensures rootAdded == "Hips_L" && childAdded == "Neck"
    ensures rootRemoved == "Hips" && childRemoved == "Neck"
  {
    var neck := new Node("Neck", []);
    var hips := new Node("Hips", [neck]);
    AddSuffixToBoneNames(hips, "_L", ["Hips"]);
    rootAdded, childAdded := hips.name, neck.name;
    RemovedNameIsFirstPrefix("Neck", ["Hips"]);
    assert StartsWith("Hips_L", "Hips");
    RemoveSuffixToBoneNames(hips, "_L", ["Hips"]);
    rootRemoved, childRemoved := hips.name, neck.name;
  }

  /** Targeting all nodes (the empty list) suffixes the root and both children. */
  method AddToAllNodes() returns (root: string, left: string, right: string)
    ensures root == "A_R" && left == "B_R" && right == "C_R"
  {
    var b := new Node("B", []);
    var c := new Node("C", []);
    var a := new Node("A", [b, c]);
    assert a.children[0] == b && a.children[1] == c;
    AddSuffixToBoneNames(a, "_R", []);
    root, left, right := a.name, b.name, c.name;
  }

  /** Remove strips whatever follows the matched target, not just a suffix it added. */
  method RemoveStripsPastTarget() returns (name: string)
    ensures name == "Shoulder_L"
  {
    var shoulder := new Node("Shoulder_LXYZ", []);
    assert StartsWith("Shoulder_LXYZ", "Shoulder_L");
    RemoveSuffixToBoneNames(shoulder, "_L", ["Shoulder_L"]);
    name := shoulder.name;
  }

  /**
   * Add then Remove over a whole hierarchy with one target list: every node
   * whose original name is an entry of a prefix-free list gets it back, and a
   * second Remove changes nothing further.
   */
  method AddThenRemoveTwice(root: Node, suffix: string, targetBoneNames: seq<string>)
    requires root.Valid() && PrefixFree(targetBoneNames)
    modifies root.Repr
    ensures forall n :: n in root.Repr && old(n.name) in targetBoneNames ==> n.name == old(n.name)
  {
    AddSuffixToBoneNames(root, suffix, targetBoneNames);
    label Added:
    RemoveSuffixToBoneNames(root, suffix, targetBoneNames);
    label Removed:
    RemoveSuffixToBoneNames(root, suffix, targetBoneNames);
    forall n | n in root.Repr && old(n.name) in targetBoneNames
      ensures n.name == old(n.name)
    {
      assert old@Added(n.name) == AddedName(old(n.name), suffix, targetBoneNames);
      assert old@Removed(n.name) == RemovedName(old@Added(n.name), targetBoneNames);
      assert n.name == RemovedName(old@Removed(n.name), targetBoneNames);
      PrefixFreeRoundTrip(old(n.name), suffix, targetBoneNames);
      RemoveIsIdempotent(old@Added(n.name), targetBoneNames);
    }
  }

  /**
   * Two names that differ at index 0, 1 or 5, or at the last index of the
   * shorter one, where both are at least two characters long.
   */
  ghost predicate Discriminated(a: string, b: string) {
    var m := if |a| < |b| then |a| else |b|;
    2 <= m && (a[0] != b[0] || a[1] != b[1] || (5 < m && a[5] != b[5]) || a[m - 1] != b[m - 1])
  }

  /** Discriminated names are distinct and neither is a prefix of the other. */
  lemma DiscriminatedAreIncomparable(a: string, b: string)
    requires Discriminated(a, b)
    ensures a != b && !StartsWith(a, b) && !StartsWith(b, a)
  {
    var m := if |a| < |b| then |a| else |b|;
    var k := if a[0] != b[0] then 0 else if a[1] != b[1] then 1 else if 5 < m && a[5] != b[5] then 5 else m - 1;
    assert k < |a| && k < |b| && a[k] != b[k];
  }

  /** Every entry at `i0 .. i1-1` is discriminated from every later entry at `j0 .. j1-1`. */
  ghost predicate BlocksDiscriminated(t: seq<string>, i0: nat, i1: nat, j0: nat, j1: nat) {
    forall i, j :: i0 <= i < i1 && j0 <= j < j1 && i < j < |t| ==> Discriminated(t[i], t[j])
  }

  /** Pairs of NecoMaid-RICH entries with the earlier one among the first seven and the later one among the first fourteen. */
  lemma NecoMaidRichPairsPart1()
    ensures BlocksDiscriminated(NecoMaidRichBoneNames, 0, 7, 0, 7)
    ensures BlocksDiscriminated(NecoMaidRichBoneNames, 0, 7, 7, 14)
  {
    var names := NecoMaidRichBoneNames;
    forall i, j | 0 <= i < 7 && 0 <= j < 7 && i < j < |names|
      ensures Discriminated(names[i], names[j])
    {
    }
    forall i, j | 0 <= i < 7 && 7 <= j < 14 && i < j < |names|
      ensures Discriminated(names[i], names[j])
    {
    }
  }

  /** Pairs with the earlier entry among the first seven and the later one in the last seven, or both among the middle seven. */
  lemma NecoMaidRichPairsPart2()
    ensures BlocksDiscriminated(NecoMaidRichBoneNames, 0, 7, 14, 21)
    ensures BlocksDiscriminated(NecoMaidRichBoneNames, 7, 14, 7, 14)
  {
    var names := NecoMaidRichBoneNames;
    forall i, j | 0 <= i < 7 && 14 <= j < 21 && i < j < |names|
      ensures Discriminated(names[i], names[j])
    {
    }
    forall i, j | 7 <= i < 14 && 7 <= j < 14 && i < j < |names|
      ensures Discriminated(names[i], names[j])
    {
    }
  }

  /** Pairs whose later entry is among the last seven and earlier one at index 7 or beyond. */
  lemma NecoMaidRichPairsPart3()
    ensures BlocksDiscriminated(NecoMaidRichBoneNames, 7, 14, 14, 21)
    ensures BlocksDiscriminated(NecoMaidRichBoneNames, 14, 21, 14, 21)
  {
    var names := NecoMaidRichBoneNames;
    forall i, j | 7 <= i < 14 && 14 <= j < 21 && i < j < |names|
      ensures Discriminated(names[i], names[j])
    {
    }
    forall i, j | 14 <= i < 21 && 14 <= j < 21 && i < j < |names|
      ensures Discriminated(names[i], names[j])
    {
    }
  }

  /** The NecoMaid-RICH list has no entry that is a prefix of another. */
  lemma NecoMaidRichIsPrefixFree()
    ensures PrefixFree(NecoMaidRichBoneNames)
  {
    var names := NecoMaidRichBoneNames;
    NecoMaidRichPairsPart1();
    NecoMaidRichPairsPart2();
    NecoMaidRichPairsPart3();
    forall i, j | 0 <= i < |names| && 0 <= j < |names| && i != j
      ensures !StartsWith(names[j], names[i])
    {
      if i < j {
        DiscriminatedAreIncomparable(names[i], names[j]);
      } else {
        DiscriminatedAreIncomparable(names[j], names[i]);
      }
    }
  }

  /** Hence every NecoMaid-RICH bone survives Add then Remove, whatever the suffix. */
  lemma NecoMaidRichRoundTrips(name: string, suffix: string)
    requires name in NecoMaidRichBoneNames
    ensures RemovedName(AddedName(name, suffix, NecoMaidRichBoneNames), NecoMaidRichBoneNames) == name
  {
    NecoMaidRichIsPrefixFree();
    PrefixFreeRoundTrip(name, suffix, NecoMaidRichBoneNames);
  }

  /**
   * With the U list, "oshiri_L" comes back as "oshiri" for every suffix: the
   * earlier entry "oshiri" wins the prefix search.
   */
  lemma UListCutsOshiri(suffix: string)
    ensures RemovedName(AddedName("oshiri_L", suffix, UBoneNames), UBoneNames) == "oshiri"
  {
    assert UBoneNames[8] == "oshiri_L";
    var s := "oshiri_L" + suffix;
    assert s[..6] == UBoneNames[7];
    forall j | 0 <= j < 7 ensures !StartsWith(s, UBoneNames[j]) {
      assert UBoneNames[j][0] != s[0];
    }
    assert FirstPrefixAt(UBoneNames, s, 7);
    FirstPrefixUnique(UBoneNames, s, 7);
  }

  /** With the U list, "HIP_Capsule.A2" comes back as "HIP_Capsule.A" for every suffix. */
  lemma UListCutsHipCapsule(suffix: string)
    ensures RemovedName(AddedName("HIP_Capsule.A2", suffix, UBoneNames), UBoneNames) == "HIP_Capsule.A"
  {
    assert UBoneNames[33] == "HIP_Capsule.A2";
    var s := "HIP_Capsule.A2" + suffix;
    assert s[..13] == UBoneNames[32];
    forall j | 0 <= j < 32 ensures !StartsWith(s, UBoneNames[j]) {
      assert UBoneNames[j][0] != s[0] || UBoneNames[j][1] != s[1];
    }
    assert FirstPrefixAt(UBoneNames, s, 32);
    FirstPrefixUnique(UBoneNames, s, 32);
  }

  /** With the Mishe list, "Chest.002" comes back as "Chest" for every suffix. */
  lemma MisheListCutsChest(suffix: string)
    ensures RemovedName(AddedName("Chest.002", suffix, MisheBoneNames), MisheBoneNames) == "Chest"
  {
    assert MisheBoneNames[3] == "Chest.002";
    var s := "Chest.002" + suffix;
    assert s[..5] == MisheBoneNames[2];
    forall j | 0 <= j < 2 ensures !StartsWith(s, MisheBoneNames[j]) {
      assert MisheBoneNames[j][0] != s[0];
    }
    assert FirstPrefixAt(MisheBoneNames, s, 2);
    FirstPrefixUnique(MisheBoneNames, s, 2);
  }

  /** With the Mishe list, "foot.L.001" comes back as "foot.L" for every suffix. */
  lemma MisheListCutsFoot(suffix: string)
    ensures RemovedName(AddedName("foot.L.001", suffix, MisheBoneNames), MisheBoneNames) == "foot.L"
  {
    assert MisheBoneNames[24] == "foot.L.001";
    var s := "foot.L.001" + suffix;
    assert s[..6] == MisheBoneNames[22];
    forall j | 0 <= j < 22 ensures !StartsWith(s, MisheBoneNames[j]) {
      assert MisheBoneNames[j][0] != s[0];
    }
    assert FirstPrefixAt(MisheBoneNames, s, 22);
    FirstPrefixUnique(MisheBoneNames, s, 22);
  }
}
