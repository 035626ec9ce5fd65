/**
 The diff between the names the documentation lists now (`remote`) and
 the names the local table holds (`local`): which appeared, which went.
 */
module Differ {
  import opened Lexicographic

  /** The two sorted lists a run acts on. */
  datatype Changes = Changes(added: seq<string>, removed: seq<string>)

  /**
   `set(s)` for a list `s`: its elements, each once. It is as long as
   the list exactly when the list has no repeats.
   */
  function Elems(s: seq<string>): (r: set<string>)
    ensures forall n :: n in r <==> n in s
    ensures |r| <= |s|
    ensures |r| == |s| <==> Distinct(s)
  {
    ElemsSize(s);
    set n | n in s
  }

  lemma {:induction false} ElemsSize(s: seq<string>)
    ensures |set n | n in s| <= |s|
    ensures |set n | n in s| == |s| <==> Distinct(s)
  {
    if s != [] {
      var tail := s[1..];
      ElemsSize(tail);
      ElemsCons(s);
      DistinctCons(s);
      var e, et := set n | n in s, set n | n in tail;
      if s[0] !in tail {
        assert |e| == |et| + 1;
      }
    }
  }

  lemma ElemsCons(s: seq<string>)
    requires s != []
    ensures (set n | n in s) == (set n | n in s[1..]) + {s[0]}
  {
    assert s == [s[0]] + s[1..];
  }

  /** A list has no repeats when its head is not in its tail and its tail has none. */
  lemma DistinctCons(s: seq<string>)
    requires s != []
    ensures Distinct(s) <==> s[0] !in s[1..] && Distinct(s[1..])
  {
    var tail := s[1..];
    if s[0] in tail {
      var k :| 0 <= k < |tail| && tail[k] == s[0];
      assert s[k + 1] == s[0];
    } else if Distinct(tail) {
      forall i, j | 0 <= i < j < |s| ensures s[i] != s[j] {
        if i > 0 {
          assert s[i] == tail[i - 1] && s[j] == tail[j - 1];
        } else {
          assert s[j] in tail;
        }
      }
    } else {
      var i, j :| 0 <= i < j < |tail| && tail[i] == tail[j];
      assert s[i + 1] == s[j + 1];
    }
  }

  /**
   `added = sorted(remote - local)`, `removed = sorted(local - remote)`:
   each holds exactly the names on one side only, ascending without
   repeats, and no name is in both.
   */
  function Diff(remote: set<string>, local: set<string>): (d: Changes)
    ensures forall n :: n in d.added <==> n in remote && n !in local
    ensures forall n :: n in d.removed <==> n in local && n !in remote
    ensures StrictlySorted(d.added) && StrictlySorted(d.removed)
    ensures forall n :: n in d.added ==> n !in d.removed
    ensures |d.added| == |remote - local| && |d.removed| == |local - remote|
  {
    Changes(SortedNames(remote - local), SortedNames(local - remote))
  }

  /**
   Diff is the only pair of strictly ascending lists with those
   elements, so it is what Python's `sorted` returns on the two sets.
   */
  lemma DiffIsUnique(remote: set<string>, local: set<string>, added: seq<string>, removed: seq<string>)
    requires StrictlySorted(added) && StrictlySorted(removed)
    requires forall n :: n in added <==> n in remote && n !in local
    requires forall n :: n in removed <==> n in local && n !in remote
    ensures Diff(remote, local) == Changes(added, removed)
  {
    var d := Diff(remote, local);
    StrictlySortedUnique(d.added, added);
    StrictlySortedUnique(d.removed, removed);
  }

  /** Taking the removed names out of `local` and adding the added ones gives `remote`. */
  lemma DiffReconciles(remote: set<string>, local: set<string>)
    ensures var d := Diff(remote, local);
      (local - Elems(d.removed)) + Elems(d.added) == remote
  {
  }

  /** When nothing changed remotely, both lists are empty. */
  lemma DiffOfEqualSets(names: set<string>)
    ensures Diff(names, names) == Changes([], [])
  {
  }
}
