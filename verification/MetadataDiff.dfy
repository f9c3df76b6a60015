/**
  The update patch of StorageMetadata: remove(matchingMetadata:oldMetadata:) computes what to send
  so that a merge patch (section 2 of RFC 7396) turns the old metadata into the new.
 */
module MetadataDiff {
  import opened Common

  /** Metadata values; Other stands for numbers and every other scalar. */
  datatype Value = Text(text: string) | Dict(entries: Tree) | Null | Other(id: int)

  type Tree = map<string, Value>

  function Lookup(t: Tree, key: string): Option<Value> {
    if key in t then Some(t[key]) else None
  }

  // ---------- the patch ----------

  /** What the loop leaves under one key. */
  function DiffAt(to: Tree, from: Tree, key: string): Option<Value>
    decreases Dict(from), 0
  {
    if key !in from then (if key in to then Some(to[key]) else None)
    else if key !in to then Some(Null)
    else if from[key].Text? && to[key].Text? then
      (if from[key] == to[key] then None else Some(to[key]))
    else if from[key].Dict? && to[key].Dict? then
      var sub := Diff(to[key].entries, from[key].entries);
      if sub == map[] then None else Some(Dict(sub))
    else Some(to[key])
  }

  function Diff(to: Tree, from: Tree): (patch: Tree)
    decreases Dict(from), 1
  {
    map key | key in to.Keys + from.Keys && DiffAt(to, from, key).Some? :: DiffAt(to, from, key).value
  }

  /** The patch once the loop has visited some of the old keys. */
  function PartialDiff(to: Tree, from: Tree, visited: set<string>): Tree {
    map key | key in to.Keys + visited && (key in visited ==> DiffAt(to, from, key).Some?)
      :: if key in visited then DiffAt(to, from, key).value else to[key]
  }

  /** Setting, replacing or deleting one entry. */
  function WithEntry(t: Tree, key: string, entry: Option<Value>): Tree {
    if entry == None then t - {key} else t[key := entry.value]
  }

  lemma VisitOne(to: Tree, from: Tree, visited: set<string>, key: string)
    requires key in from && key !in visited
    ensures Lookup(PartialDiff(to, from, visited), key) == Lookup(to, key)
    ensures PartialDiff(to, from, visited + {key}) ==
            WithEntry(PartialDiff(to, from, visited), key, DiffAt(to, from, key))
  {
    hide DiffAt;
  }

  lemma VisitAll(to: Tree, from: Tree)
    ensures PartialDiff(to, from, {}) == to
    ensures PartialDiff(to, from, from.Keys) == Diff(to, from)
  {
    assert forall key | key in to && key !in from :: DiffAt(to, from, key) == Some(to[key]);
  }

  /** The loop, which visits the old keys in no particular order. */
  method Remove(matching: Tree, before: Tree) returns (patch: Tree)
    ensures patch == Diff(matching, before)
    decreases Dict(before)
  {
    hide PartialDiff, Diff, DiffAt, WithEntry;
    VisitAll(matching, before);
    patch := matching;
    var keys := before.Keys;
    ghost var visited: set<string> := {};
    while keys != {}
      invariant keys !! visited && keys + visited == before.Keys
      invariant patch == PartialDiff(matching, before, visited)
      decreases |keys|
    {
      var key :| key in keys;
      VisitOne(matching, before, visited, key);
      patch := VisitKey(matching, before, key, patch);
      keys, visited := keys - {key}, visited + {key};
    }
    assert visited == before.Keys;
  }

  /** The loop body. */
  method VisitKey(ghost matching: Tree, before: Tree, key: string, patch0: Tree) returns (patch: Tree)
    requires key in before && Lookup(patch0, key) == Lookup(matching, key)
    ensures patch == WithEntry(patch0, key, DiffAt(matching, before, key))
    decreases Dict(before), 0
  {
    patch := patch0;
    if key !in patch {
      patch := patch[key := Null];
    } else if before[key].Text? && patch[key].Text? {
      if before[key] == patch[key] {
        patch := patch - {key};
      }
    } else if before[key].Dict? && patch[key].Dict? {
      var sub := Remove(patch[key].entries, before[key].entries);
      if |sub| == 0 {
        patch := patch - {key};
      } else {
        patch := patch[key := Dict(sub)];
      }
    }
  }

  // ---------- merge patch, section 2 of RFC 7396 ----------

  /** Patching a missing value, or one that is not an object, starts from the empty object. */
  function MergePatch(target: Option<Value>, patch: Value): Value
    decreases patch, 2
  {
    if patch.Dict? then
      Dict(Merge(if target.Some? && target.value.Dict? then target.value.entries else map[], patch.entries))
    else patch
  }

  function MergeAt(target: Tree, patch: Tree, key: string): Option<Value>
    decreases Dict(patch), 0
  {
    var was := if key in target then Some(target[key]) else None;
    if key !in patch then was
    else if patch[key].Null? then None
    else Some(MergePatch(was, patch[key]))
  }

  function Merge(target: Tree, patch: Tree): Tree
    decreases Dict(patch), 1
  {
    map key | key in target.Keys + patch.Keys && MergeAt(target, patch, key).Some? :: MergeAt(target, patch, key).value
  }

  // ---------- what the patch is for ----------

  predicate NoNulls(v: Value) {
    match v
    case Null => false
    case Dict(entries) => forall key | key in entries :: NoNulls(entries[key])
    case _ => true
  }

  predicate OnlyTexts(v: Value) {
    match v
    case Text(_) => true
    case Dict(entries) => forall key | key in entries :: OnlyTexts(entries[key])
    case _ => false
  }

  lemma TreesEqual(s: Tree, t: Tree)
    requires forall key :: Lookup(s, key) == Lookup(t, key)
    ensures s == t
  {
    forall key ensures key in s <==> key in t {
      assert Lookup(s, key) == Lookup(t, key);
    }
    forall key | key in s ensures s[key] == t[key] {
      assert Lookup(s, key) == Lookup(t, key);
    }
  }

  lemma EmptyPatch(t: Tree)
    ensures Merge(t, map[]) == t
  {
  }

  /** Applied to nothing, an object patch gives the object back when it holds no null. */
  lemma {:induction false} MergeOntoNothing(d: Tree)
    ensures Merge(map[], d) == d <==> NoNulls(Dict(d))
    decreases Dict(d)
  {
    forall key ensures MergeAt(map[], d, key) == Lookup(d, key) <==> (key in d ==> NoNulls(d[key])) {
      if key in d && d[key].Dict? {
        MergeOntoNothing(d[key].entries);
      }
    }
    MergeByKey(map[], d, d);
  }

  lemma MergeByKey(target: Tree, patch: Tree, result: Tree)
    ensures Merge(target, patch) == result <==> forall key :: MergeAt(target, patch, key) == Lookup(result, key)
  {
    var m := Merge(target, patch);
    forall key ensures Lookup(m, key) == MergeAt(target, patch, key) {
    }
    if forall key :: MergeAt(target, patch, key) == Lookup(result, key) {
      forall key ensures Lookup(m, key) == Lookup(result, key) {
        assert MergeAt(target, patch, key) == Lookup(result, key);
      }
      TreesEqual(m, result);
    }
  }

  /** The patch turns the old tree into the new one exactly when the new one holds no null. */
  lemma {:induction false} PatchInverts(to: Tree, from: Tree)
    ensures Merge(from, Diff(to, from)) == to <==> NoNulls(Dict(to))
    decreases Dict(from)
  {
    var patch := Diff(to, from);
    forall key ensures MergeAt(from, patch, key) == Lookup(to, key) <==> (key in to ==> NoNulls(to[key])) {
      PatchInvertsAt(to, from, key);
    }
    MergeByKey(from, patch, to);
  }

  lemma {:induction false} PatchInvertsAt(to: Tree, from: Tree, key: string)
    ensures MergeAt(from, Diff(to, from), key) == Lookup(to, key) <==> (key in to ==> NoNulls(to[key]))
    decreases Dict(from), 0
  {
    var patch := Diff(to, from);
    assert Lookup(patch, key) == DiffAt(to, from, key);
    if key in to && to[key].Dict? {
      if key in from && from[key].Dict? {
        PatchInverts(to[key].entries, from[key].entries);
        EmptyPatch(from[key].entries);
      } else {
        MergeOntoNothing(to[key].entries);
      }
    }
  }

  /**
    Key by key: an entry is left out exactly when it did not change and every leaf of it is a text.  What
    is sent is a null for a key that is gone, the patch of the two trees for a key with a tree in both,
    and the new value otherwise.
   */
  lemma {:induction false} DiffEntries(to: Tree, from: Tree, key: string)
    ensures key !in Diff(to, from) <==> Lookup(to, key) == Lookup(from, key) && (key in to ==> OnlyTexts(to[key]))
    ensures key in Diff(to, from) ==>
              Diff(to, from)[key] ==
                if key !in to then Null
                else if to[key].Dict? && key in from && from[key].Dict? then
                  Dict(Diff(to[key].entries, from[key].entries))
                else to[key]
    decreases Dict(from), 0
  {
    if key in to && key in from && to[key].Dict? && from[key].Dict? {
      EmptyDiff(to[key].entries, from[key].entries);
    }
  }

  /** Nothing is sent exactly when nothing changed and every leaf is a text. */
  lemma {:induction false} EmptyDiff(to: Tree, from: Tree)
    ensures Diff(to, from) == map[] <==> to == from && OnlyTexts(Dict(to))
    decreases Dict(from), 1
  {
    hide Diff, OnlyTexts;
    forall key
      ensures key !in Diff(to, from) <==> Lookup(to, key) == Lookup(from, key) && (key in to ==> OnlyTexts(to[key]))
    {
      DiffEntries(to, from, key);
    }
    assert OnlyTexts(Dict(to)) <==> forall key | key in to :: OnlyTexts(to[key]) by { TextsByKey(to); }
    if Diff(to, from) == map[] {
      forall key ensures Lookup(to, key) == Lookup(from, key) && (key in to ==> OnlyTexts(to[key])) {
        assert key !in Diff(to, from);
      }
      TreesEqual(to, from);
    } else if to == from && OnlyTexts(Dict(to)) {
      assert forall key :: key !in Diff(to, from);
    }
  }

  lemma TextsByKey(t: Tree)
    ensures OnlyTexts(Dict(t)) <==> forall key | key in t :: OnlyTexts(t[key])
  {
  }

  lemma MergeLookup(target: Tree, patch: Tree, key: string)
    ensures Lookup(Merge(target, patch), key) == MergeAt(target, patch, key)
  {
  }

  lemma {:induction false} EntryChanges(to: Tree, from: Tree, key: string)
    requires key in Diff(to, from) && (key in to ==> OnlyTexts(Diff(to, from)[key]))
    ensures MergeAt(from, Diff(to, from), key) != Lookup(from, key)
    decreases Dict(from)
  {
    hide Diff, Merge;
    DiffEntries(to, from, key);
    if key in to && key in from && to[key].Dict? && from[key].Dict? {
      var newer, older := to[key].entries, from[key].entries;
      var sub := Diff(newer, older);
      assert sub != map[] by { SubtreeSent(to, from, key); }
      var k :| k in sub;
      TextsByKey(sub);
      EntryChanges(newer, older, k);
      MergeLookup(older, sub, k);
      assert Merge(older, sub) != older;
    }
  }

  lemma SubtreeSent(to: Tree, from: Tree, key: string)
    requires key in Diff(to, from) && key in to && key in from && to[key].Dict? && from[key].Dict?
    ensures Diff(to[key].entries, from[key].entries) != map[]
  {
  }

  /** Nothing sent can be spared: without an entry of only texts, or one that deletes, the patch gives another tree. */
  lemma NoEntryToSpare(to: Tree, from: Tree, key: string)
    requires key in Diff(to, from) && (key in to ==> OnlyTexts(Diff(to, from)[key]))
    ensures Merge(from, Diff(to, from) - {key}) != Merge(from, Diff(to, from))
  {
    hide Diff, Merge;
    var patch := Diff(to, from);
    EntryChanges(to, from, key);
    MergeLookup(from, patch, key);
    MergeLookup(from, patch - {key}, key);
  }
}
