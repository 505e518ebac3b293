/**
 * The favorites toolbox: the session's list of saved records, kept free of
 * duplicate names, and the copy of it written to the browser's storage.
 */
module Favorites {
  import opened KnowledgeBase

  /** Some favorite is called `name`. */
  predicate HasName(favs: seq<Record>, name: string) {
    exists k :: 0 <= k < |favs| && favs[k].nombre == name
  }

  /** No two favorites share a name. */
  predicate UniqueNames(favs: seq<Record>) {
    forall i, j :: 0 <= i < j < |favs| ==> favs[i].nombre != favs[j].nombre
  }

  /** The duplicate test before saving: does any favorite already carry `name`? */
  function AnyNamed(favs: seq<Record>, name: string): (b: bool)
    ensures b <==> HasName(favs, name)
  {
    if favs == [] then false
    else favs[0].nombre == name || AnyNamed(favs[1..], name)
  }

  /** The list after asking to save `r`: appended unless its name is already there. */
  function Added(favs: seq<Record>, r: Record): (out: seq<Record>)
    ensures |favs| <= |out| <= |favs| + 1 && out[..|favs|] == favs
    ensures |out| == |favs| + 1 <==> !HasName(favs, r.nombre)
    ensures |out| == |favs| + 1 ==> out[|favs|] == r
  {
    if AnyNamed(favs, r.nombre) then favs else favs + [r]
  }

  /** The list after deleting the favorite at position `i`. */
  function Removed(favs: seq<Record>, i: nat): (out: seq<Record>)
    requires i < |favs|
    ensures |out| == |favs| - 1
    ensures forall k :: 0 <= k < i ==> out[k] == favs[k]
    ensures forall k :: i <= k < |out| ==> out[k] == favs[k + 1]
  {
    favs[..i] + favs[i + 1..]
  }

  /** The session list after a run's attempt to restore from storage. */
  function Synced(favs: seq<Record>, vals: seq<Record>): (out: seq<Record>)
    ensures favs != [] ==> out == favs
    ensures favs == [] ==> out == vals
  {
    if vals != [] && favs == [] then vals else favs
  }

  // ---------------------------------------------------------------------------
  // Properties of the list operations
  // ---------------------------------------------------------------------------

  /** After saving, a favorite with the record's name is present. */
  lemma AddedHasName(favs: seq<Record>, r: Record)
    ensures HasName(Added(favs, r), r.nombre)
  {
    if !AnyNamed(favs, r.nombre) {
      assert (favs + [r])[|favs|] == r;
    }
  }

  /** Saving never creates a duplicate name. */
  lemma AddedKeepsUnique(favs: seq<Record>, r: Record)
    requires UniqueNames(favs)
    ensures UniqueNames(Added(favs, r))
  {
    if !AnyNamed(favs, r.nombre) {
      var f := favs + [r];
      forall i, j | 0 <= i < j < |f|
        ensures f[i].nombre != f[j].nombre
      {
        if j == |favs| {
          assert f[i] == favs[i];
        }
      }
    }
  }

  /** Saving is idempotent: saving the same record again changes nothing. */
  lemma AddedIdempotent(favs: seq<Record>, r: Record)
    ensures Added(Added(favs, r), r) == Added(favs, r)
  {
    if !AnyNamed(favs, r.nombre) {
      assert (favs + [r])[|favs|] == r;
    }
  }

  /** Saving appends exactly when the name is new; otherwise the list is untouched. */
  lemma AddedGrowsIffNew(favs: seq<Record>, r: Record)
    ensures |Added(favs, r)| == |favs| + 1 <==> !HasName(favs, r.nombre)
    ensures HasName(favs, r.nombre) ==> Added(favs, r) == favs
    ensures !HasName(favs, r.nombre) ==> Added(favs, r)[..|favs|] == favs && Added(favs, r)[|favs|] == r
  {
  }

  /** Deleting what was just saved gives back the list from before. */
  lemma RemoveUndoesAdd(favs: seq<Record>, r: Record)
    requires !HasName(favs, r.nombre)
    ensures |Added(favs, r)| == |favs| + 1
    ensures Removed(Added(favs, r), |favs|) == favs
  {
    assert (favs + [r])[..|favs|] == favs;
  }

  /** Deleting keeps the other favorites, in order, and keeps names unique. */
  lemma RemovedKeepsUnique(favs: seq<Record>, i: nat)
    requires i < |favs| && UniqueNames(favs)
    ensures UniqueNames(Removed(favs, i))
    ensures !HasName(Removed(favs, i), favs[i].nombre)
  {
    var f := Removed(favs, i);
    assert forall k :: 0 <= k < |f| ==> f[k] == (if k < i then favs[k] else favs[k + 1]);
  }

  /** Deleting removes exactly one favorite: the one at `i`. */
  lemma RemovedIsPermutationMinusOne(favs: seq<Record>, i: nat)
    requires i < |favs|
    ensures multiset(Removed(favs, i)) + multiset{favs[i]} == multiset(favs)
  {
    assert favs == favs[..i] + [favs[i]] + favs[i + 1..];
  }

  /** Restoring never replaces a non-empty session list and adopts a non-empty stored one only into an empty list. */
  lemma SyncedIff(favs: seq<Record>, vals: seq<Record>)
    ensures Synced(favs, vals) == vals <==> vals == favs || (favs == [] && vals != [])
    ensures Synced(Synced(favs, vals), vals) == Synced(favs, vals)
  {
  }

  /**
   * The session's favorites and the list last written to the browser's
   * storage under the key `coreshell_favs`.
   */
  class Toolbox {
    var items: seq<Record>
    var saved: seq<Record>

    /** The list in storage is the session's list. */
    predicate Persisted()
      reads this
    {
      saved == items
    }

    /** A new session starts with no favorites; the browser keeps whatever it stored before. */
    constructor (stored: seq<Record>)
      ensures items == [] && saved == stored
    {
      items := [];
      saved := stored;
    }

    /**
     * One run's restore: `vals` is what the storage bridge returned this
     * run, `[]` when it returned nothing yet or an empty list. It is adopted
     * only when it is non-empty and the session list is empty.
     */
    method Sync(vals: seq<Record>)
      modifies this
      ensures items == Synced(old(items), vals) && saved == old(saved)
      ensures old(items) == [] && vals == saved ==> Persisted()
    {
      if vals != [] && items == [] {
        items := vals;
      }
    }

    /** The save button: append `r` and write the list out unless its name is already saved. */
    method Add(r: Record) returns (added: bool)
      modifies this
      ensures added <==> !HasName(old(items), r.nombre)
      ensures items == Added(old(items), r)
      ensures saved == if added then items else old(saved)
      ensures HasName(items, r.nombre)
      ensures UniqueNames(old(items)) ==> UniqueNames(items)
    {
      added := !AnyNamed(items, r.nombre);
      if added {
        items := items + [r];
        saved := items;
      }
      AddedHasName(old(items), r);
      if UniqueNames(old(items)) {
        AddedKeepsUnique(old(items), r);
      }
    }

    /** The delete button of the favorite at position `i`: drop it and write the list out. */
    method Remove(i: nat)
      requires i < |items|
      modifies this
      ensures items == Removed(old(items), i) && Persisted()
      ensures UniqueNames(old(items)) ==> UniqueNames(items) && !HasName(items, old(items)[i].nombre)
    {
      items := items[..i] + items[i + 1..];
      saved := items;
      if UniqueNames(old(items)) {
        RemovedKeepsUnique(old(items), i);
      }
    }
  }
}
