/**
 The local `Resource` table: one row per resource name (the unique key),
 holding the provider label and the creation time, and the two loops
 that bring it in line with a diff inside one transaction.
 */
module Store {
  import opened Lexicographic
  import opened Text
  import opened Differ

  /** An instant, supplied by the caller; the model never inspects it. */
  type Timestamp = int

  /** The non-key columns of a `Resource` row. */
  datatype Row = Row(provider: string, created: Timestamp)

  /**
   `name.split("_")[0]`: the part of the name before its first
   underscore, or the whole name when it has none.
   */
  function Provider(name: string): (p: string)
    ensures p <= name && '_' !in p
  {
    SplitFirstPiece(name, '_');
    Split(name, '_')[0]
  }

  /**
   The provider is a prefix of the name without an underscore, followed
   in the name by an underscore unless it is the whole name.
   */
  lemma ProviderIsPrefixBeforeUnderscore(name: string)
    ensures var p := Provider(name);
      p <= name && '_' !in p && (|p| < |name| ==> name[|p|] == '_')
  {
    SplitFirstPiece(name, '_');
  }

  /**
   Conversely, a split point `k` with no underscore before it and an
   underscore (or the end of the name) at it is where the provider ends.
   */
  lemma ProviderIsNameUpToUnderscore(name: string, k: nat)
    requires k <= |name|
    requires '_' !in name[..k]
    requires k == |name| || name[k] == '_'
    ensures Provider(name) == name[..k]
  {
    var p := Provider(name);
    ProviderIsPrefixBeforeUnderscore(name);
    assert forall i :: 0 <= i < k ==> name[i] != '_' by {
      forall i | 0 <= i < k ensures name[i] != '_' {
        assert name[..k][i] == name[i];
      }
    }
    assert forall i :: 0 <= i < |p| ==> name[i] != '_' by {
      forall i | 0 <= i < |p| ensures name[i] != '_' {
        assert p[i] == name[i];
      }
    }
    assert |p| == k;
  }

  /** The rows the insert loop creates for `names`, all stamped `now`. */
  function Inserted(names: seq<string>, now: Timestamp): map<string, Row>
  {
    if names == [] then map[]
    else
      var last := names[|names| - 1];
      Inserted(names[..|names| - 1], now)[last := Row(Provider(last), now)]
  }

  /** The table after inserting `added`, then deleting `removed`. */
  function Synced(rows: map<string, Row>, added: seq<string>, removed: seq<string>, now: Timestamp): map<string, Row>
  {
    (rows + Inserted(added, now)) - Elems(removed)
  }

  /**
   Every insert finds its name free (the name column is unique) and
   every delete finds its row, when the table starts with `keys`.
   */
  predicate Applicable(keys: set<string>, added: seq<string>, removed: seq<string>)
  {
    && Distinct(added)
    && (forall k :: 0 <= k < |added| ==> added[k] !in keys)
    && Distinct(removed)
    && (forall k :: 0 <= k < |removed| ==> removed[k] in keys || removed[k] in added)
  }

  /** Inserted holds a row for exactly the given names, each with its provider. */
  lemma {:induction false} InsertedAt(names: seq<string>, now: Timestamp, n: string)
    ensures n in Inserted(names, now) <==> n in names
    ensures n in names ==> Inserted(names, now)[n] == Row(Provider(n), now)
  {
    if names != [] {
      var init := names[..|names| - 1];
      InsertedAt(init, now, n);
      assert names == init + [names[|names| - 1]];
    }
  }

  lemma InsertedKeys(names: seq<string>, now: Timestamp)
    ensures Inserted(names, now).Keys == Elems(names)
  {
    forall n ensures n in Inserted(names, now) <==> n in names {
      InsertedAt(names, now, n);
    }
  }

  lemma InsertedSnoc(names: seq<string>, i: nat, now: Timestamp)
    requires i < |names|
    ensures Inserted(names[..i + 1], now) == Inserted(names[..i], now)[names[i] := Row(Provider(names[i]), now)]
  {
    assert names[..i + 1][..i] == names[..i];
  }

  lemma DistinctSnoc(names: seq<string>, i: nat)
    requires i < |names|
    requires Distinct(names[..i]) && names[i] !in names[..i]
    ensures Distinct(names[..i + 1])
  {
    assert names[..i + 1] == names[..i] + [names[i]];
  }

  lemma ElemsSnoc(names: seq<string>, j: nat)
    requires j < |names|
    ensures Elems(names[..j + 1]) == Elems(names[..j]) + {names[j]}
  {
    assert names[..j + 1] == names[..j] + [names[j]];
  }

  lemma UpdateOfUnion(a: map<string, Row>, b: map<string, Row>, n: string, row: Row)
    ensures (a + b)[n := row] == a + b[n := row]
  {
  }

  /** A name already present, or repeated, makes the inserts fail. */
  lemma NotFresh(keys: set<string>, names: seq<string>, i: nat)
    requires i < |names|
    requires names[i] in keys || names[i] in names[..i]
    ensures !(Distinct(names) && forall k :: 0 <= k < |names| ==> names[k] !in keys)
  {
    if names[i] !in keys {
      var k :| 0 <= k < i && names[..i][k] == names[i];
      assert names[k] == names[i];
    }
  }

  /** What Synced holds for one name. */
  lemma SyncedAt(rows: map<string, Row>, added: seq<string>, removed: seq<string>, now: Timestamp, n: string)
    ensures n in Synced(rows, added, removed, now) <==> (n in rows || n in added) && n !in removed
    ensures n in Synced(rows, added, removed, now) ==>
      Synced(rows, added, removed, now)[n] == if n in added then Row(Provider(n), now) else rows[n]
  {
    InsertedAt(added, now, n);
  }

  /**
   The diff of a table against any remote set can always be applied:
   every added name is new and every removed name has a row.
   */
  lemma DiffApplicable(keys: set<string>, remote: set<string>)
    ensures Applicable(keys, Diff(remote, keys).added, Diff(remote, keys).removed)
  {
    var d := Diff(remote, keys);
    StrictlySortedIsDistinct(d.added);
    StrictlySortedIsDistinct(d.removed);
    assert forall k :: 0 <= k < |d.removed| ==> d.removed[k] in d.removed;
  }

  /**
   Applying the diff of the table against a remote set leaves exactly
   the remote names: rows of names on both sides untouched, each new
   name with its provider and `now`.
   */
  lemma SyncedFromDiff(rows: map<string, Row>, remote: set<string>, now: Timestamp)
    ensures var d := Diff(remote, rows.Keys);
      var after := Synced(rows, d.added, d.removed, now);
      && after.Keys == remote
      && (forall n :: n in rows && n in remote ==> after[n] == rows[n])
      && (forall n :: n in remote && n !in rows ==> after[n] == Row(Provider(n), now))
  {
    var d := Diff(remote, rows.Keys);
    SyncedAgainst(rows, remote, d.added, d.removed, now);
  }

  /** SyncedFromDiff, for any lists holding the names of a diff. */
  lemma SyncedAgainst(rows: map<string, Row>, remote: set<string>, added: seq<string>, removed: seq<string>, now: Timestamp)
    requires forall n :: n in added <==> n in remote && n !in rows
    requires forall n :: n in removed <==> n in rows && n !in remote
    ensures var after := Synced(rows, added, removed, now);
      && after.Keys == remote
      && (forall n :: n in rows && n in remote ==> after[n] == rows[n])
      && (forall n :: n in remote && n !in rows ==> after[n] == Row(Provider(n), now))
  {
    var after := Synced(rows, added, removed, now);
    forall n ensures n in after <==> n in remote {
      SyncedAt(rows, added, removed, now, n);
    }
    forall n | n in rows && n in remote ensures n in after && after[n] == rows[n] {
      SyncedAt(rows, added, removed, now, n);
    }
    forall n | n in remote && n !in rows ensures n in after && after[n] == Row(Provider(n), now) {
      SyncedAt(rows, added, removed, now, n);
    }
  }

  /** With nothing to add or remove, the table is left as it was. */
  lemma SyncedNothing(rows: map<string, Row>, now: Timestamp)
    ensures Synced(rows, [], [], now) == rows
  {
  }

  class ResourceTable {
    var rows: map<string, Row>

    /** `db.create_tables([Resource])` on a fresh database. */
    constructor ()
      ensures rows == map[]
    {
      rows := map[];
    }

    /** `set([r.name for r in Resource.select()])`. */
    function Names(): (r: set<string>)
      reads this
      ensures forall n :: n in r <==> n in rows
      ensures |r| == |rows|
    {
      rows.Keys
    }

    /**
     `Resource.create(name=..., provider=...)`: fails, changing nothing,
     when the unique name is already taken.
     */
    method Create(name: string, provider: string, created: Timestamp) returns (ok: bool)
      modifies this
      ensures ok <==> name !in old(rows)
      ensures rows == if ok then old(rows)[name := Row(provider, created)] else old(rows)
    {
      ok := name !in rows;
      if ok {
        rows := rows[name := Row(provider, created)];
      }
    }

    /**
     `Resource.get(Resource.name == name).delete_instance()`: fails,
     changing nothing, when no row has that name.
     */
    method DeleteByName(name: string) returns (found: bool)
      modifies this
      ensures found <==> name in old(rows)
      ensures rows == old(rows) - {name}
    {
      found := name in rows;
      if found {
        rows := rows - {name};
      }
    }

    /**
     The first loop inside `db.atomic()`: create a row for each name. A
     failing create ends the loop with the table as it was before it.
     */
    method InsertAll(names: seq<string>, now: Timestamp) returns (ok: bool)
      modifies this
      ensures ok <==> Distinct(names) && forall k :: 0 <= k < |names| ==> names[k] !in old(rows)
      ensures rows == if ok then old(rows) + Inserted(names, now) else old(rows)
    {
      var snapshot := rows;
      ok := true;
      var i := 0;
      while i < |names|
        invariant 0 <= i <= |names|
        invariant Distinct(names[..i])
        invariant forall k :: 0 <= k < i ==> names[k] !in snapshot
        invariant rows == snapshot + Inserted(names[..i], now)
      {
        var name := names[i];
        InsertedAt(names[..i], now, name);
        ok := Create(name, Provider(name), now);
        if !ok {
          NotFresh(snapshot.Keys, names, i);
          rows := snapshot;
          return;
        }
        DistinctSnoc(names, i);
        InsertedSnoc(names, i, now);
        UpdateOfUnion(snapshot, Inserted(names[..i], now), name, Row(Provider(name), now));
        i := i + 1;
      }
      assert names[..i] == names;
    }

    /**
     The second loop inside `db.atomic()`: delete the row of each name. A
     failing lookup ends the loop with the table as it was before it.
     */
    method DeleteAll(names: seq<string>) returns (ok: bool)
      modifies this
      ensures ok <==> Distinct(names) && forall k :: 0 <= k < |names| ==> names[k] in old(rows)
      ensures rows == if ok then old(rows) - Elems(names) else old(rows)
    {
      var snapshot := rows;
      ok := true;
      var j := 0;
      while j < |names|
        invariant 0 <= j <= |names|
        invariant Distinct(names[..j])
        invariant forall k :: 0 <= k < j ==> names[k] in snapshot
        invariant rows == snapshot - Elems(names[..j])
      {
        var name := names[j];
        ok := DeleteByName(name);
        if !ok {
          if name in snapshot {
            var k :| 0 <= k < j && names[k] == name;
            assert !Distinct(names);
          }
          rows := snapshot;
          return;
        }
        ElemsSnoc(names, j);
        j := j + 1;
      }
      assert names[..j] == names;
    }

    /**
     The whole `with db.atomic()` block: the insert loop, then the delete
     loop; if either fails, the transaction leaves the table unchanged.
     */
    method ApplyDiff(added: seq<string>, removed: seq<string>, now: Timestamp) returns (ok: bool)
      modifies this
      ensures ok <==> Applicable(old(rows).Keys, added, removed)
      ensures rows == if ok then Synced(old(rows), added, removed, now) else old(rows)
    {
      var snapshot := rows;
      ok := InsertAll(added, now);
      if ok {
        InsertedKeys(added, now);
        ok := DeleteAll(removed);
        if !ok {
          rows := snapshot;
        }
      }
    }
  }
}
