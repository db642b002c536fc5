/**
 * How the window persists its target bone names in EditorPrefs: the array's
 * length under one key, and entry `i` under the prefix key followed by the
 * decimal text of `i`. Saving never deletes anything, so entries past the new
 * length, left over from a longer earlier save, stay in the store.
 */
module InputState {
  import opened Wrappers
  import opened EditorPrefs

  const PrefsKeyTargetBoneNamesLength := "AddBoneNamesSuffixes/targetBoneNames.length"
  const PrefsKeyTargetBoneNamesPrefix := "AddBoneNamesSuffixes/targetBoneNames"

  /** The key of entry `i`: `prefsKeyTargetBoneNamesPrefix + i`. */
  function IndexKey(i: nat): string {
    PrefsKeyTargetBoneNamesPrefix + DecimalString(i)
  }

  /** Entry keys never collide with each other nor with the length key. */
  lemma IndexKeysAreDistinct(i: nat, j: nat)
    ensures IndexKey(i) != PrefsKeyTargetBoneNamesLength
    ensures IndexKey(i) == IndexKey(j) ==> i == j
  {
    var p := PrefsKeyTargetBoneNamesPrefix;
    assert IndexKey(i)[|p|] == DecimalString(i)[0];
    assert PrefsKeyTargetBoneNamesLength[|p|] == '.';
    if IndexKey(i) == IndexKey(j) {
      assert DecimalString(i) == IndexKey(i)[|p|..];
      assert DecimalString(j) == IndexKey(j)[|p|..];
      DecimalStringInjective(i, j);
    }
  }

  /** The store after entries `0 .. n-1` of `names` have been written over `store`. */
  function WriteEntries(store: Store, names: seq<string>, n: nat): Store
    requires n <= |names|
  {
    if n == 0 then store
    else WriteEntries(store, names, n - 1)[IndexKey(n - 1) := StringValue(names[n - 1])]
  }

  /** The store after SaveInputState(names): the length key, then every entry key. */
  function SavedStore(store: Store, names: seq<string>): Store {
    WriteEntries(store[PrefsKeyTargetBoneNamesLength := IntValue(|names|)], names, |names|)
  }

  /** The names RestoreSavedTargetBoneNames reads back; `None` when the stored length is negative. */
  function RestoredNames(store: Store): Option<seq<string>> {
    var length := GetInt(store, PrefsKeyTargetBoneNamesLength);
    if length < 0 then None
    else Some(seq(length, i requires 0 <= i < length => GetString(store, IndexKey(i))))
  }

  /**
   * After writing the first `n` entries, entry key `k < n` holds name `k`, and
   * every key that is not such an entry key holds what it held before.
   */
  lemma {:induction false} WriteEntriesAt(store: Store, names: seq<string>, n: nat, key: string)
    requires n <= |names|
    ensures forall k :: 0 <= k < n && key == IndexKey(k) ==>
              key in WriteEntries(store, names, n) && WriteEntries(store, names, n)[key] == StringValue(names[k])
    ensures (forall k :: 0 <= k < n ==> key != IndexKey(k)) ==>
              (key in WriteEntries(store, names, n) <==> key in store)
              && (key in store ==> WriteEntries(store, names, n)[key] == store[key])
  {
    if n > 0 {
      WriteEntriesAt(store, names, n - 1, key);
      forall k | 0 <= k < n - 1 && key == IndexKey(k)
        ensures key != IndexKey(n - 1)
      {
        IndexKeysAreDistinct(k, n - 1);
      }
    }
  }

  /** Restoring right after saving `names` yields exactly `names`, whatever the store held before. */
  lemma SaveThenRestore(store: Store, names: seq<string>)
    ensures RestoredNames(SavedStore(store, names)) == Some(names)
  {
    var start := store[PrefsKeyTargetBoneNamesLength := IntValue(|names|)];
    var saved := SavedStore(store, names);
    WriteEntriesAt(start, names, |names|, PrefsKeyTargetBoneNamesLength);
    forall k | 0 <= k < |names|
      ensures PrefsKeyTargetBoneNamesLength != IndexKey(k)
    {
      IndexKeysAreDistinct(k, k);
    }
    assert GetInt(saved, PrefsKeyTargetBoneNamesLength) == |names|;
    var restored := RestoredNames(saved).value;
    assert |restored| == |names|;
    forall i | 0 <= i < |names|
      ensures restored[i] == names[i]
    {
      WriteEntriesAt(start, names, |names|, IndexKey(i));
      assert restored[i] == GetString(saved, IndexKey(i));
    }
    assert restored == names;
  }

  /**
   * Saving touches only the length key and the keys of the entries it
   * writes: every other key, in particular an entry key at or past the new
   * length, keeps its old value (or stays absent).
   */
  lemma SaveKeepsOtherKeys(store: Store, names: seq<string>, key: string)
    requires key != PrefsKeyTargetBoneNamesLength
    requires forall k :: 0 <= k < |names| ==> key != IndexKey(k)
    ensures key in SavedStore(store, names) <==> key in store
    ensures key in store ==> SavedStore(store, names)[key] == store[key]
  {
    WriteEntriesAt(store[PrefsKeyTargetBoneNamesLength := IntValue(|names|)], names, |names|, key);
  }

  /** An entry left from a longer earlier save survives a shorter save. */
  lemma SaveKeepsStaleEntries(store: Store, names: seq<string>, i: nat)
    requires i >= |names| && IndexKey(i) in store
    ensures IndexKey(i) in SavedStore(store, names)
    ensures SavedStore(store, names)[IndexKey(i)] == store[IndexKey(i)]
  {
    IndexKeysAreDistinct(i, i);
    forall k | 0 <= k < |names|
      ensures IndexKey(i) != IndexKey(k)
    {
      IndexKeysAreDistinct(i, k);
    }
    SaveKeepsOtherKeys(store, names, IndexKey(i));
  }

  /** SaveInputState: writes the length, then each entry in index order. */
  method SaveInputState(prefs: Prefs, targetBoneNames: seq<string>)
    modifies prefs
    ensures prefs.store == SavedStore(old(prefs.store), targetBoneNames)
  {
    prefs.SetInt(PrefsKeyTargetBoneNamesLength, |targetBoneNames|);
    ghost var start := prefs.store;

    for i := 0 to |targetBoneNames|
      invariant prefs.store == WriteEntries(start, targetBoneNames, i)
    {
      prefs.SetString(PrefsKeyTargetBoneNamesPrefix + DecimalString(i), targetBoneNames[i]);
    }
  }

  /**
   * RestoreSavedTargetBoneNames: a fresh array of the stored length, filled
   * entry by entry. A negative stored length makes the allocation throw,
   * modelled as `None`.
   */
  method RestoreSavedTargetBoneNames(prefs: Prefs) returns (result: Option<array<string>>)
    ensures result.None? <==> RestoredNames(prefs.store).None?
    ensures result.Some? ==> fresh(result.value) && result.value[..] == RestoredNames(prefs.store).value
  {
    var length := GetInt(prefs.store, PrefsKeyTargetBoneNamesLength);
    if length < 0 {
      return None;
    }
    var names := new string[length];

    for i := 0 to length
      invariant forall k :: 0 <= k < i ==> names[k] == GetString(prefs.store, IndexKey(k))
    {
      names[i] := GetString(prefs.store, PrefsKeyTargetBoneNamesPrefix + DecimalString(i));
    }
    result := Some(names);
  }
}
