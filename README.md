# AddBoneNamesSuffixes in Dafny

A model of the core of AddBoneNamesSuffixes. This Unity editor tool renames the bones of an avatar rig in bulk. It adds a suffix to bone names, or takes it back off, across a whole transform hierarchy.

- **Scene graph** (`scene_graph.dfy`, module `SceneGraph`). A GameObject with its Transform is a `Node`. Its `name` is a mutable field and its children are an ordered constant sequence. `Valid()` says that the ghost footprint `Repr` is a tree. The walks never re-parent anything, so each node's children, their order and the footprint cannot change. Only `name` is written.
- **Renaming walks** (`add_bone_names_suffixes.dfy`, module `AddBoneNamesSuffixes`). The add walk and the remove walk are imperative recursive methods that write `name` in place, in pre-order. Each one is specified node by node against a pure rule. `AddedName` appends the suffix when the target list is empty ("all") or holds the node's own name. `RemovedName` replaces the name with the first entry, in list order, that is a prefix of it; this is `Array.Find`, modelled by `Find`. The module also holds the input validation, `GetErrorMessage`. The lemmas cover the properties of the rules: append exactly once under "all", idempotent Remove, Remove as a no-op under "all", and when Add followed by Remove round-trips.
- **Persisted target list** (`editor_prefs.dfy` and `input_state.dfy`). EditorPrefs is a map from keys to int or string values, with the host's defaults for missing keys. The target list is saved as one length key plus one key per index. The index key is the prefix followed by `int.ToString()`. The lemmas prove that Restore after Save gives the list back, and that a shorter save leaves stale entries in place.
- **Preset catalogue** (`bone_names_templates.dfy`, module `BoneNamesTemplates`). It holds the three shipped profiles. The class's static initializer fills a dictionary with `Add`. `Get` returns a fresh copy, and it fails on an unknown key.
- **Scenarios** (`scenarios.dfy`). These are concrete runs of the walks on small hierarchies. They also cover what Add followed by Remove does with each shipped preset. The NecoMaid-RICH list is prefix-free, so it always round-trips. The U and Mishe lists each contain an entry that is a prefix of a later entry (all six such pairs: "oshiri"/"oshiri_L", "oshiri"/"oshiri_R", "HIP_Capsule.A"/"HIP_Capsule.A2", "Chest"/"Chest.002", "foot.L"/"foot.L.001", "foot.R"/"foot.R.001"). Remove cuts the later bone back to the earlier name; four of these pairs are worked through as lemmas.

How the code behaves at three points that are easy to misread:
- "All" is the empty target array. The window's "target all" toggle only hides the list editor, and the walks never see it.
- Remove breaks ties by array order: the earliest entry that is a prefix of the name wins.
- The doc comment on the remove walk (AddBoneNamesSuffixes.cs:262) says it applies when "the target is all and it contains the suffix". The code never uses the suffix, and with an empty array it renames nothing.

Assumptions of the model:
- String comparison is ordinal, and `StartsWith` is Dafny's sequence-prefix test.
- Bone names, the suffix passed to a walk, and target entries are never null.

## Model

| member | source | states |
|---|---|---|
| AddBoneNamesSuffixes.FindIsFirstPrefix | Assets/galaxy-sixth-sensey/AddBoneNamesSuffixes/Editor/AddBoneNamesSuffixes.cs:279 | `Array.Find` with the prefix predicate. The result is absent iff no entry is a prefix of the name. Otherwise it is the entry at the first index whose entry is a prefix of the name. |
| AddBoneNamesSuffixes.AddSuffixToBoneNames | Assets/galaxy-sixth-sensey/AddBoneNamesSuffixes/Editor/AddBoneNamesSuffixes.cs:249-258 | Every node of the hierarchy, root included, ends with its own pre-walk name, plus the suffix when the list is empty or holds that name exactly. A parent's renaming does not affect its children. Nothing outside the hierarchy changes. |
| AddBoneNamesSuffixes.RemoveSuffix | Assets/galaxy-sixth-sensey/AddBoneNamesSuffixes/Editor/AddBoneNamesSuffixes.cs:278-283 | Only this node's name changes. It becomes the first list entry that is a prefix of the old name, and stays as it was if there is none. |
| AddBoneNamesSuffixes.RemoveSuffixToBoneNames | Assets/galaxy-sixth-sensey/AddBoneNamesSuffixes/Editor/AddBoneNamesSuffixes.cs:266-273 | Every node of the hierarchy gets the remove rule applied to its own old name. The suffix argument has no effect. Nothing outside the hierarchy changes. |
| AddBoneNamesSuffixes.GetErrorMessage | Assets/galaxy-sixth-sensey/AddBoneNamesSuffixes/Editor/AddBoneNamesSuffixes.cs:231-241 | A missing root gives the root-bone message, whatever the suffix is. With a root, a null or empty suffix gives the suffix message. The result is null exactly when there is a root and a non-empty suffix. |
| AddBoneNamesSuffixes.AddToAllAppendsOnce | Assets/galaxy-sixth-sensey/AddBoneNamesSuffixes/Editor/AddBoneNamesSuffixes.cs:250-251 | With the empty list, the suffix is appended exactly once. A second Add appends it a second time, so Add is not idempotent. |
| AddBoneNamesSuffixes.AddChangesExactlyTargets | Assets/galaxy-sixth-sensey/AddBoneNamesSuffixes/Editor/AddBoneNamesSuffixes.cs:250-252 | With a non-empty list and a non-empty suffix, a name changes iff it is an entry of the list. The only possible change is appending the suffix. |
| AddBoneNamesSuffixes.RemovedNameIsFirstPrefix | Assets/galaxy-sixth-sensey/AddBoneNamesSuffixes/Editor/AddBoneNamesSuffixes.cs:279-282 | The remove rule leaves a name alone when no entry is a prefix of it. Otherwise it yields the first prefix entry. A changed name is always a list entry and a prefix of the old name. |
| AddBoneNamesSuffixes.RemoveFromAllIsNoOp | Assets/galaxy-sixth-sensey/AddBoneNamesSuffixes/Editor/AddBoneNamesSuffixes.cs:279-282 | With the empty list, Remove renames nothing. |
| AddBoneNamesSuffixes.RemoveIsIdempotent | Assets/galaxy-sixth-sensey/AddBoneNamesSuffixes/Editor/AddBoneNamesSuffixes.cs:279-281 | Applying the remove rule twice gives the same name as applying it once. |
| AddBoneNamesSuffixes.FirstPrefixUnique | Assets/galaxy-sixth-sensey/AddBoneNamesSuffixes/Editor/AddBoneNamesSuffixes.cs:279-282 | If index i holds the first prefix entry (no earlier entry is a prefix of the name), Find returns exactly that entry and Remove renames the node to it. |
| AddBoneNamesSuffixes.AddThenRemoveRestores | Assets/galaxy-sixth-sensey/AddBoneNamesSuffixes/Editor/AddBoneNamesSuffixes.cs:249-283 | Add then Remove with the same list restores a name held by entry i, provided no earlier entry is a prefix of the suffixed name. |
| AddBoneNamesSuffixes.PrefixFreeRoundTrip | Assets/galaxy-sixth-sensey/AddBoneNamesSuffixes/Editor/AddBoneNamesSuffixes.cs:249-283 | For a list in which no entry is a prefix of another, Add then Remove restores every targeted name, for every suffix. |
| Scenarios.AddThenRemoveOnHips | Assets/galaxy-sixth-sensey/AddBoneNamesSuffixes/Editor/AddBoneNamesSuffixes.cs:249-283 | Take root "Hips" with child "Neck", suffix "_L" and list ["Hips"]. Add gives "Hips_L" and "Neck". Remove then gives "Hips" and "Neck". |
| Scenarios.AddToAllNodes | Assets/galaxy-sixth-sensey/AddBoneNamesSuffixes/Editor/AddBoneNamesSuffixes.cs:249-258 | With the empty list and suffix "_R", the tree A(B, C) becomes "A_R", "B_R", "C_R". |
| Scenarios.RemoveStripsPastTarget | Assets/galaxy-sixth-sensey/AddBoneNamesSuffixes/Editor/AddBoneNamesSuffixes.cs:266-283 | Remove with ["Shoulder_L"] turns "Shoulder_LXYZ" into "Shoulder_L". It strips everything after the matched entry. |
| Scenarios.AddThenRemoveTwice | Assets/galaxy-sixth-sensey/AddBoneNamesSuffixes/Editor/AddBoneNamesSuffixes.cs:249-283 | Over a whole hierarchy with a prefix-free list, Add then Remove then Remove again leaves every targeted node with its original name. |
| Scenarios.NecoMaidRichIsPrefixFree | Assets/galaxy-sixth-sensey/AddBoneNamesSuffixes/Editor/BoneNamesTemplates.cs:30-52 | No NecoMaid-RICH entry is a prefix of another entry. |
| Scenarios.NecoMaidRichRoundTrips | Assets/galaxy-sixth-sensey/AddBoneNamesSuffixes/Editor/BoneNamesTemplates.cs:30-52 | Every NecoMaid-RICH bone name survives Add then Remove with that list, for every suffix. |
| Scenarios.UListCutsOshiri | Assets/galaxy-sixth-sensey/AddBoneNamesSuffixes/Editor/BoneNamesTemplates.cs:61-62 | With the U list, "oshiri_L" comes back from Add then Remove as "oshiri", for every suffix. |
| Scenarios.UListCutsHipCapsule | Assets/galaxy-sixth-sensey/AddBoneNamesSuffixes/Editor/BoneNamesTemplates.cs:86-87 | With the U list, "HIP_Capsule.A2" comes back as "HIP_Capsule.A", for every suffix. |
| Scenarios.MisheListCutsChest | Assets/galaxy-sixth-sensey/AddBoneNamesSuffixes/Editor/BoneNamesTemplates.cs:96-97 | With the Mishe list, "Chest.002" comes back as "Chest", for every suffix. |
| Scenarios.MisheListCutsFoot | Assets/galaxy-sixth-sensey/AddBoneNamesSuffixes/Editor/BoneNamesTemplates.cs:116-118 | With the Mishe list, "foot.L.001" comes back as "foot.L", for every suffix. |
| BoneNamesTemplates.PresetsShape | Assets/galaxy-sixth-sensey/AddBoneNamesSuffixes/Editor/BoneNamesTemplates.cs:122-124 | Exactly three profiles are registered: "NecoMaid-RICH", "U" and "Mishe". Their lists have 21, 38 and 26 entries. NecoMaid-RICH starts "Hips", "Spine", "Chest", and the other two start with "Hips". |
| BoneNamesTemplates.BoneNamesPresets.constructor | Assets/galaxy-sixth-sensey/AddBoneNamesSuffixes/Editor/BoneNamesTemplates.cs:27-125 | The static initializer leaves the dictionary holding exactly the three shipped lists. |
| BoneNamesTemplates.BoneNamesPresets.Add | Assets/galaxy-sixth-sensey/AddBoneNamesSuffixes/Editor/BoneNamesTemplates.cs:122-124 | `Dictionary.Add` on a new key extends the dictionary by that one entry. |
| BoneNamesTemplates.BoneNamesPresets.Get | Assets/galaxy-sixth-sensey/AddBoneNamesSuffixes/Editor/BoneNamesTemplates.cs:127-140 | Get fails iff the key is not registered. Otherwise it returns a freshly allocated array that is elementwise equal to the registered list. |
| BoneNamesTemplates.BoneNamesPresets.GetDefault | Assets/galaxy-sixth-sensey/AddBoneNamesSuffixes/Editor/BoneNamesTemplates.cs:142-144 | GetDefault behaves as Get("NecoMaid-RICH"). |
| BoneNamesTemplates.GetReturnsIndependentCopy | Assets/galaxy-sixth-sensey/AddBoneNamesSuffixes/Editor/BoneNamesTemplates.cs:139 | Writing into the array one Get returned does not change what the next Get returns. |
| EditorPrefs.Prefs.SetInt | Assets/galaxy-sixth-sensey/AddBoneNamesSuffixes/Editor/AddBoneNamesSuffixes.cs:73 | Writing an int changes that one key and nothing else. |
| EditorPrefs.Prefs.SetString | Assets/galaxy-sixth-sensey/AddBoneNamesSuffixes/Editor/AddBoneNamesSuffixes.cs:76 | Writing a string changes that one key and nothing else. |
| EditorPrefs.DecimalString | Assets/galaxy-sixth-sensey/AddBoneNamesSuffixes/Editor/AddBoneNamesSuffixes.cs:76 | The decimal text of an index that goes into a key is non-empty and made only of digits. |
| EditorPrefs.DecimalRoundTrip | Assets/galaxy-sixth-sensey/AddBoneNamesSuffixes/Editor/AddBoneNamesSuffixes.cs:76 | Reading the decimal text of n back gives n. |
| EditorPrefs.DecimalStringInjective | Assets/galaxy-sixth-sensey/AddBoneNamesSuffixes/Editor/AddBoneNamesSuffixes.cs:293 | Distinct indices have distinct decimal texts. |
| InputState.IndexKeysAreDistinct | Assets/galaxy-sixth-sensey/AddBoneNamesSuffixes/Editor/AddBoneNamesSuffixes.cs:13-14 | Entry keys differ from the length key and from each other. |
| InputState.WriteEntriesAt | Assets/galaxy-sixth-sensey/AddBoneNamesSuffixes/Editor/AddBoneNamesSuffixes.cs:75-77 | After the first n entries are written, entry key k < n holds name k. Every other key keeps its old value, or stays absent. |
| InputState.SaveInputState | Assets/galaxy-sixth-sensey/AddBoneNamesSuffixes/Editor/AddBoneNamesSuffixes.cs:72-79 | The store afterwards is the old store with the length key and then each entry key written, in index order. |
| InputState.RestoreSavedTargetBoneNames | Assets/galaxy-sixth-sensey/AddBoneNamesSuffixes/Editor/AddBoneNamesSuffixes.cs:288-297 | Allocation fails iff the stored length is negative. Otherwise the result is a fresh array of the stored length, holding each entry key's string, or "" where an entry is missing. |
| InputState.SaveThenRestore | Assets/galaxy-sixth-sensey/AddBoneNamesSuffixes/Editor/AddBoneNamesSuffixes.cs:288-297 | Restoring right after saving a list yields exactly that list, whatever the store held before. |
| InputState.SaveKeepsOtherKeys | Assets/galaxy-sixth-sensey/AddBoneNamesSuffixes/Editor/AddBoneNamesSuffixes.cs:72-79 | Saving touches only the length key and the keys of the entries it writes. |
| InputState.SaveKeepsStaleEntries | Assets/galaxy-sixth-sensey/AddBoneNamesSuffixes/Editor/AddBoneNamesSuffixes.cs:71 | An entry key at or beyond the new length keeps the value an earlier, longer save left there. |

## Left out

- Editor GUI: `OnGUI` and its reference-equality autosave check, the `MakeUI*` methods, scroll state, dialogs and `Application.OpenURL`. This is host rendering glue.
- `TryAddingSuffixToBoneNames` and `TryRemovingSuffixToBoneNames`. They call `GetErrorMessage`, show a dialog, and otherwise call the walk. Both halves are modelled separately.
- JSON backup and restore (`SaveTargetBoneNamesToJSON`, `LoadTargetBoneNamesFromJSON`, `InitializeTargetBoneNamesWithJSON`). These are file pickers, file I/O and `JsonUtility` calls.
- `RestoreSavedProperties`, `InitalizeInputState` and the `hasRestored` flag. This is window state handling around Save, Restore and `Get`, each of which is modelled.
- The `Debug.LogError` diagnostics in `Get`. They are logging only, and an unknown key throws before reaching them.
- Culture-sensitive `string.StartsWith` and null bone names or null target entries. The model compares ordinally and assumes neither kind of null.
- `AddBoneNamesSuffixes.AddSuffixToBoneNames`: a null suffix is not modelled. In C# it would append nothing, but validation rejects a null suffix before any walk runs.
- EditorPrefs storage itself. The store is a plain map. Reading a key that holds the other kind of value gives the default, as for a missing key.
- `BoneNamesTemplates.BoneNamesPresets.Get`: a null key, which would make the dictionary throw `ArgumentNullException`, is not modelled. A Dafny string is never null.
- Call-stack depth. Both walks recurse once per level of the hierarchy. The model has no stack limit.
