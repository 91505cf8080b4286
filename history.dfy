/** The bounded, newest-first history of finished generations, kept in one
    slot of the browser's key-value storage (`src/lib/history.ts`). */
module History {
  import opened Wrappers

  /** The storage key the history lives under. */
  const StorageKey: string := "generation-history"

  /** The most entries the history keeps. */
  const MaxHistory: nat := 10

  datatype GenerationVersion = GenerationVersion(id: string, prompt: string, code: string, timestamp: int)

  /** What a storage slot holds. The history slot holds the JSON text of a
      list of versions; the model keeps the list itself (`Versions`) in
      place of that text. Other slots hold text of their own. */
  datatype StoredValue = Text(text: string) | Versions(versions: seq<GenerationVersion>)

  function Min(a: nat, b: nat): nat
  {
    if a <= b then a else b
  }

  /** `[version, ...history].slice(0, MAX_HISTORY)`: the new version in
      front, followed by as many of the old entries, oldest last, as fit. */
  function Prepend(version: GenerationVersion, history: seq<GenerationVersion>): (result: seq<GenerationVersion>)
    ensures |result| == Min(|history| + 1, MaxHistory)
    ensures result[0] == version
    ensures forall k :: 1 <= k < |result| ==> result[k] == history[k - 1]
  {
    ([version] + history)[..Min(|history| + 1, MaxHistory)]
  }

  /** A full history loses exactly its oldest entry when a version is saved. */
  lemma {:induction false} EvictsOldest(version: GenerationVersion, history: seq<GenerationVersion>)
    requires |history| == MaxHistory
    ensures Prepend(version, history) == [version] + history[..MaxHistory - 1]
    ensures |Prepend(version, history)| == MaxHistory
  {
    var r := Prepend(version, history);
    var expected := [version] + history[..MaxHistory - 1];
    assert |r| == |expected|;
    forall k | 0 <= k < |r| ensures r[k] == expected[k] {
      if k > 0 {
        assert expected[k] == history[k - 1];
      }
    }
  }

  /** The history after saving `versions` one after another, starting from `history`. */
  function SaveAll(history: seq<GenerationVersion>, versions: seq<GenerationVersion>): seq<GenerationVersion>
    decreases |versions|
  {
    if versions == [] then history else SaveAll(Prepend(versions[0], history), versions[1..])
  }

  function Reversed(versions: seq<GenerationVersion>): (r: seq<GenerationVersion>)
    ensures |r| == |versions|
  {
    if versions == [] then [] else Reversed(versions[1..]) + [versions[0]]
  }

  /** After a run of saves the history is the saved versions, newest first,
      followed by the earlier history, cut to the ten most recent. */
  lemma {:induction false} SaveAllIsNewestFirst(history: seq<GenerationVersion>, versions: seq<GenerationVersion>)
    requires versions != []
    ensures SaveAll(history, versions)
         == (Reversed(versions) + history)[..Min(|versions| + |history|, MaxHistory)]
    decreases |versions|
  {
    var first := Prepend(versions[0], history);
    var rest := versions[1..];
    if rest == [] {
      assert Reversed(versions) == [versions[0]];
    } else {
      SaveAllIsNewestFirst(first, rest);
      var n := Min(|rest| + |first|, MaxHistory);
      var m := Min(|versions| + |history|, MaxHistory);
      var lhs := (Reversed(rest) + first)[..n];
      var rhs := (Reversed(versions) + history)[..m];
      assert Reversed(versions) == Reversed(rest) + [versions[0]];
      assert |first| == Min(|history| + 1, MaxHistory);
      assert n == m;
      assert |lhs| == n && |rhs| == n;
      forall k | 0 <= k < n ensures lhs[k] == rhs[k] {
        if k < |rest| {
          assert lhs[k] == Reversed(rest)[k];
        } else if k == |rest| {
          assert lhs[k] == first[0];
        } else {
          assert lhs[k] == first[k - |rest|] == history[k - |rest| - 1];
          assert rhs[k] == history[k - |versions|];
        }
      }
    }
  }

  /** Saves never let the history grow past `MaxHistory` entries. */
  lemma {:induction false} SaveAllBounded(history: seq<GenerationVersion>, versions: seq<GenerationVersion>)
    requires |history| <= MaxHistory
    ensures |SaveAll(history, versions)| <= MaxHistory
    decreases |versions|
  {
    if versions != [] {
      SaveAllBounded(Prepend(versions[0], history), versions[1..]);
    }
  }

  /** `historyManager` over `localStorage`. `hasWindow` is false when the
      code runs outside a browser, where `typeof window === 'undefined'`. */
  class Store {
    const hasWindow: bool
    var items: map<string, StoredValue>

    /** Only this module writes the history slot, and it always writes a list. */
    ghost predicate Valid()
      reads this
    {
      StorageKey in items ==> items[StorageKey].Versions?
    }

    constructor (hasWindow: bool, items: map<string, StoredValue>)
      requires StorageKey in items ==> items[StorageKey].Versions?
      ensures Valid()
      ensures this.hasWindow == hasWindow && this.items == items
    {
      this.hasWindow := hasWindow;
      this.items := items;
    }

    /** `getHistory()`: the stored list, or the empty list when there is no
        window or nothing is stored. */
    function GetHistory(): (history: seq<GenerationVersion>)
      reads this
      requires Valid()
      ensures !hasWindow || StorageKey !in items ==> history == []
      ensures hasWindow && StorageKey in items ==> Versions(history) == items[StorageKey]
    {
      if !hasWindow then []
      else if StorageKey !in items then []
      else items[StorageKey].versions
    }

    /** `saveVersion(version)`: stores and returns the old history with
        `version` prepended, cut to `MaxHistory` entries; no other key
        changes. Outside a browser the write to storage throws (`None`)
        and nothing changes. */
    method SaveVersion(version: GenerationVersion) returns (newHistory: Option<seq<GenerationVersion>>)
      requires Valid()
      modifies this
      ensures Valid()
      ensures !hasWindow ==> newHistory.None? && items == old(items)
      ensures hasWindow ==> newHistory == Some(Prepend(version, old(GetHistory())))
      ensures hasWindow ==> items == old(items)[StorageKey := Versions(newHistory.value)]
      ensures hasWindow ==> GetHistory() == newHistory.value
    {
      var history := GetHistory();
      if !hasWindow {
        return None;
      }
      var saved := Prepend(version, history);
      items := items[StorageKey := Versions(saved)];
      newHistory := Some(saved);
    }

    /** `clearHistory()`: removes the history slot and nothing else. Outside
        a browser it throws (`false`) and nothing changes. */
    method ClearHistory() returns (cleared: bool)
      requires Valid()
      modifies this
      ensures Valid()
      ensures cleared == hasWindow
      ensures hasWindow ==> items == old(items) - {StorageKey} && GetHistory() == []
      ensures !hasWindow ==> items == old(items)
    {
      if !hasWindow {
        return false;
      }
      items := items - {StorageKey};
      cleared := true;
    }
  }
}
