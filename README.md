# Datadog resource-catalog schema tracker, modelled in Dafny

The tracker is one script, `bin/datadog/track-resource-schema.py`. Each run
reads the resource-type names listed on a documentation page. It diffs them
against the names held in a small local `Resource` table. It then updates the
table in one transaction and, when a webhook URL is set, posts a summary of
the changes to it. This project models the part of a run that computes
something:

- **Diff** (`differ.dfy`): `added = sorted(remote - local)` and
  `removed = sorted(local - remote)`.
- **Store sync** (`store.dfy`): the `Resource` table is a class
  `ResourceTable` whose field `rows` maps each unique name to a `Row`
  (provider, creation time). `ApplyDiff` runs the two loops inside
  `db.atomic()`. The first creates one row per added name, with provider
  `name.split("_")[0]`. The second deletes the row of each removed name. A
  create of a name already present, or a delete of a missing name, fails, and
  the transaction then leaves the table as it was.
- **Notification** (`notifier.dfy`): whether a post goes out, and the
  five-line message it carries.
- **The run** (`pipeline.dfy`): `Run` strings these together on a table, the
  scraped code-span texts, the optional webhook URL and a timestamp.
- Python built-ins used on the way: string ordering and `sorted`
  (`lexicographic.dfy`), and `str.split` and `str.join` (`text.dfy`).

Main results:

- The diff lists are strictly ascending, disjoint, and hold exactly the names
  on one side only. They are the only such lists, so they are what Python's
  `sorted` returns.
- The diff of a table can always be applied: every created name is new and
  every deleted name has a row, so `Resource.get` never fails.
- After the run the table's names are exactly the remote set. Rows of names
  on both sides are untouched. Each new row carries its name's provider and
  the run's timestamp.
- A post goes out exactly when a non-empty webhook URL is set and something
  changed. When nothing changed, the table stays the same and nothing is
  posted.
- Split at its newlines, the message gives back the header, both labels and
  every name in order, provided no name contains a newline; an empty list
  contributes one empty line. Nothing at line 20 keeps a newline out of a
  code element's text.

Two details of the code that the model keeps:

- `sorted([...])` at lines 17-22 keeps duplicate code-span texts, and only
  `set(...)` at line 43 drops them; `SortedList` keeps them too.
- `if webhook_url` at line 68 treats an empty URL as unset, and
  `Notification` does the same.

## Model

| member | source | states |
|---|---|---|
| `Lexicographic.SortedList` | bin/datadog/track-resource-schema.py:17-22 | `sorted(list)` is ascending in Python's string order and is a permutation of the list (duplicates kept) |
| `Lexicographic.SortedPermutationUnique` | bin/datadog/track-resource-schema.py:17-22 | two ascending permutations of the same list are equal, so any correct sort (Python's Timsort included) gives `SortedList`'s result |
| `Lexicographic.SortedNames` | bin/datadog/track-resource-schema.py:47-52 | `sorted(set)` is strictly ascending, holds exactly the set's elements, and is as long as the set |
| `Lexicographic.StrictlySortedUnique` | bin/datadog/track-resource-schema.py:47-52 | two strictly ascending lists with the same elements are equal, so `SortedNames(s)` is the only list `sorted` can return for `s` |
| `Lexicographic.Less` | bin/datadog/track-resource-schema.py:47-52 | Python's `str` order used by `sorted`, compared code point by code point; a proper prefix comes before the longer string |
| `Lexicographic.LessTotal` | bin/datadog/track-resource-schema.py:47-52 | Python's string order is total: distinct strings compare one way or the other |
| `Lexicographic.LessTransitive` | bin/datadog/track-resource-schema.py:47-52 | Python's string order is transitive |
| `Lexicographic.LessAsymmetric` | bin/datadog/track-resource-schema.py:47-52 | Python's string order is asymmetric, so it is a strict order |
| `Differ.Elems` | bin/datadog/track-resource-schema.py:43 | `set(...)` of a list holds exactly the list's elements; it is no larger than the list, and exactly as large when the list has no repeats |
| `Differ.Diff` | bin/datadog/track-resource-schema.py:47-52 | `added` holds exactly the names in remote and not local, `removed` exactly those in local and not remote; both strictly ascending, disjoint, sized as the set differences |
| `Differ.DiffIsUnique` | bin/datadog/track-resource-schema.py:47-52 | any two strictly ascending lists with those elements are `Diff`'s lists |
| `Differ.DiffReconciles` | bin/datadog/track-resource-schema.py:47-52 | local minus the removed names plus the added names is the remote set |
| `Differ.DiffOfEqualSets` | bin/datadog/track-resource-schema.py:47-52 | when remote equals local both lists are empty |
| `Text.Join` | bin/datadog/track-resource-schema.py:69-77 | `sep.join(parts)` starts with the first part (its inverse is `Split`, by `JoinSplit` and `SplitJoin`) |
| `Text.Split` | bin/datadog/track-resource-schema.py:56 | `str.split(sep)` gives at least one piece and no piece holds the separator |
| `Text.SplitFirstPiece` | bin/datadog/track-resource-schema.py:56 | the first piece of a split is a separator-free prefix followed by a separator, or is the whole string |
| `Text.JoinSplit` | bin/datadog/track-resource-schema.py:69-77 | joining the pieces of a split with the same separator gives back the string |
| `Text.SplitJoin` | bin/datadog/track-resource-schema.py:69-77 | splitting a join of separator-free parts gives back the parts |
| `Store.Provider` | bin/datadog/track-resource-schema.py:56 | `name.split("_")[0]` is a prefix of the name without an underscore |
| `Store.ProviderIsPrefixBeforeUnderscore` | bin/datadog/track-resource-schema.py:56 | the provider is a prefix of the name with no underscore, followed by an underscore unless it is the whole name |
| `Store.ProviderIsNameUpToUnderscore` | bin/datadog/track-resource-schema.py:56 | conversely, the name up to its first underscore (or all of it) is the provider |
| `Store.InsertedAt` | bin/datadog/track-resource-schema.py:55-59 | the insert loop creates a row for exactly the given names, each with its provider and the run's timestamp |
| `Store.DiffApplicable` | bin/datadog/track-resource-schema.py:54-63 | for any table and remote set, the diff's added names are distinct and absent from the table, and its removed names are distinct and present, so no create or lookup fails |
| `Store.SyncedFromDiff` | bin/datadog/track-resource-schema.py:54-63 | after applying the diff the table's names equal the remote set; names on both sides keep their row; each new name gets `Row(provider, now)` |
| `Store.SyncedNothing` | bin/datadog/track-resource-schema.py:54-63 | with both lists empty the table is unchanged |
| `Store.ResourceTable.constructor` | bin/datadog/track-resource-schema.py:41 | `create_tables` on a fresh database file gives an empty table |
| `Store.ResourceTable.Names` | bin/datadog/track-resource-schema.py:45 | `set([r.name for r in Resource.select()])` holds exactly the names that have a row, one per row |
| `Store.ResourceTable.Create` | bin/datadog/track-resource-schema.py:59 | the create succeeds exactly when the unique name is free, and then adds that one row; otherwise nothing changes |
| `Store.ResourceTable.DeleteByName` | bin/datadog/track-resource-schema.py:63 | the delete finds the row exactly when the name is present, and removes only that row |
| `Store.ResourceTable.InsertAll` | bin/datadog/track-resource-schema.py:55-59 | the insert loop succeeds exactly when the names are distinct and all new, and then adds exactly their rows; otherwise the table is as before |
| `Store.ResourceTable.DeleteAll` | bin/datadog/track-resource-schema.py:61-63 | the delete loop succeeds exactly when the names are distinct and all present, and then removes exactly their rows; otherwise the table is as before |
| `Store.ResourceTable.ApplyDiff` | bin/datadog/track-resource-schema.py:54-63 | the transaction commits exactly when every create and delete can succeed, and then the table is the old one with the added rows inserted and the removed ones deleted; otherwise it is unchanged |
| `Notifier.Message` | bin/datadog/track-resource-schema.py:69-77 | the joined message opens with the header line |
| `Notifier.MessageLayout` | bin/datadog/track-resource-schema.py:69-77 | the message is header, "Added:", the added names joined by newlines, "Removed:", the removed names joined by newlines, separated by newlines |
| `Notifier.MessageLines` | bin/datadog/track-resource-schema.py:69-77 | if no name holds a newline, the message's lines are the header, "Added:", the added names (one empty line if none), "Removed:", the removed names (one empty line if none) |
| `Notifier.Notification` | bin/datadog/track-resource-schema.py:67-83 | a post is made exactly when the webhook URL is set and non-empty and at least one list is non-empty; it goes to that URL with the message as text |
| `Notifier.NoChangesNoNotification` | bin/datadog/track-resource-schema.py:68 | with both lists empty no post is made, whatever the webhook setting |
| `Pipeline.ElemsOfPermutation` | bin/datadog/track-resource-schema.py:43 | `set(...)` of the sorted list is the set of the scraped texts |
| `Pipeline.Run` | bin/datadog/track-resource-schema.py:43-83 | the run applies the diff of the scraped set against the table; afterwards the table's names are the scraped set, shared rows are unchanged, new rows carry provider and timestamp; the post is the notification decision; if the table already matched, both lists are empty, the table is unchanged and nothing is posted |
| `Pipeline.ExampleAdded` | bin/datadog/track-resource-schema.py:47-52 | remote {aws_ec2_instance, gcp_instance} against local {aws_ec2_instance} adds only gcp_instance |
| `Pipeline.ExampleRemoved` | bin/datadog/track-resource-schema.py:47-52 | an empty remote against local {aws_ec2_instance} removes only aws_ec2_instance |
| `Pipeline.ExampleProvider` | bin/datadog/track-resource-schema.py:56 | the provider of aws_ec2_instance is aws |

## Left out

- Fetching and parsing the documentation page (lines 14-20): this is network I/O through the `requests_html` library. `Run` takes the scraped code-span texts as a parameter.
- SQLite and peewee: connecting, `db.close()` and the ORM itself (lines 28-41, 65). The table is the in-memory map `ResourceTable.rows`, and `Names()` stands for `Resource.select()`. `create_tables` is modelled only on a fresh database file, by the constructor (an empty table); on an existing file it leaves the rows in place, which `Run` covers by taking an existing table.
- `db.atomic()` (line 54) is modelled only as "a failing step leaves the table as it was before the block", by restoring a snapshot. How SQLite achieves this, and its behaviour on crashes, are not modelled. In this script the diff never makes a step fail (`DiffApplicable`).
- Timestamps: each `Resource.create` in the source reads `datetime.datetime.now` (line 35). The model passes one opaque timestamp, `now`, and gives it to every row created in the run.
- The environment lookup of the webhook URL (line 67): `Run` takes the URL as an `Option`. The HTTP POST (lines 80-83) and its JSON encoding are not performed: `Run` returns the `Post` (URL and text) it would send.
- Logging (all `logging.*` calls) has no effect on the computed state and is omitted.
- The exception that ends the process when the fetch, the database or the webhook fails is not modelled. A failing create or delete inside the transaction is modelled (`ApplyDiff` returns false and restores the table), and is proved never to happen in a run.
- Text.Split, Text.Join: only the one-character separators the script uses ("_" and "\n") are modelled, not general string separators.
- Strings are sequences of Unicode scalar values compared by code point, as Python compares `str` values. No normalisation is modelled.
