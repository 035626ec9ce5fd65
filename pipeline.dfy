/**
 One run of the tracker: take the sorted names the documentation page
 lists, diff them against the table, apply the diff in one transaction,
 and decide on the notification.
 */
module Pipeline {
  import opened Lexicographic
  import opened Differ
  import opened Store
  import opened Notifier

  /** `set(xs)` keeps exactly the elements of `xs`, whatever their order. */
  lemma ElemsOfPermutation(xs: seq<string>, ys: seq<string>)
    requires multiset(xs) == multiset(ys)
    ensures Elems(xs) == Elems(ys)
  {
    forall n ensures n in xs <==> n in ys {
      assert n in xs <==> n in multiset(xs);
      assert n in ys <==> n in multiset(ys);
    }
  }

  /**
   The body of the script. `codeTexts` are the texts of the code spans
   on the documentation page (fetching and parsing it is not modelled),
   `webhook` the configured webhook URL if any, `now` the creation time
   given to new rows. The run returns the diff it applied and the post
   it would send.
   */
  method Run(table: ResourceTable, codeTexts: seq<string>, webhook: Option<string>, now: Timestamp)
    returns (changes: Changes, post: Option<Post>)
    modifies table
    ensures changes == Diff(Elems(codeTexts), old(table.Names()))
    ensures table.rows == Synced(old(table.rows), changes.added, changes.removed, now)
    ensures table.Names() == Elems(codeTexts)
    ensures forall n :: n in old(table.rows) && n in codeTexts ==> table.rows[n] == old(table.rows)[n]
    ensures forall n :: n in codeTexts && n !in old(table.rows) ==> table.rows[n] == Row(Provider(n), now)
    ensures post == Notification(webhook, changes.added, changes.removed)
    ensures old(table.Names()) == Elems(codeTexts) ==>
      changes == Changes([], []) && table.rows == old(table.rows) && post == None
  {
    var remoteNames := SortedList(codeTexts);
    var remote := Elems(remoteNames);
    ElemsOfPermutation(remoteNames, codeTexts);
    var local := table.Names();
    changes := Diff(remote, local);
    DiffApplicable(local, remote);
    SyncedFromDiff(table.rows, remote, now);
    DiffOfEqualSets(remote);
    SyncedNothing(table.rows, now);
    var ok := table.ApplyDiff(changes.added, changes.removed, now);
    assert ok;
    post := Notification(webhook, changes.added, changes.removed);
  }

  /** A name that appeared remotely is added with its provider. */
  lemma ExampleAdded()
    ensures Diff({"aws_ec2_instance", "gcp_instance"}, {"aws_ec2_instance"}) == Changes(["gcp_instance"], [])
  {
    DiffIsUnique({"aws_ec2_instance", "gcp_instance"}, {"aws_ec2_instance"}, ["gcp_instance"], []);
  }

  /** A name that vanished remotely is removed. */
  lemma ExampleRemoved()
    ensures Diff({}, {"aws_ec2_instance"}) == Changes([], ["aws_ec2_instance"])
  {
    DiffIsUnique({}, {"aws_ec2_instance"}, [], ["aws_ec2_instance"]);
  }

  lemma ExampleProvider()
    ensures Provider("aws_ec2_instance") == "aws"
  {
    var name := "aws_ec2_instance";
    assert name[..3] == "aws";
    assert '_' !in name[..3];
    ProviderIsNameUpToUnderscore(name, 3);
  }
}
