# Blocklist snapshot store and window aggregator, in Dafny

This project models `update.py`, the script that keeps a history of
blocklist feeds. For each feed in `BLOCKLIST_LIST`, `main` does five things
in order:

1. `prune` deletes snapshots older than 30 days and two hours.
2. `check_mtime` compares the newest snapshot with the feed's Last-Modified
   time.
3. `convert` turns the fetched text into a sorted list, one identifier per line.
4. `save` writes the list as a new `YYYYMMDD.HHMMSS.txt` snapshot. When one
   of its candidates already has the same adler32 checksum, it renames that
   snapshot to the new time instead.
5. `generate` and `generate_latest` then rebuild `30d`, `14d`, `7d`, `3d`,
   `1d` (the union of the lines of the snapshots in each window) and
   `latest.txt`.

Modules:

- `Wrappers`: `Option` and `Result`.
- `Text`: the parts of Python's `str` the script uses, with Python's meaning.
  These are `split` on a separator, `join`, `splitlines`, `strip` of one
  character, and the code-point order that `list.sort()` uses. `Sort` is
  specified as a sorted permutation, and sorted permutations are unique.
- `Normalizer`: `convert`. `FormatOf` picks one of five per-source rules. The
  function `Converted` is the reference, and the method `Convert` (the
  source's loop) is proved equal to it. A Python `IndexError` becomes
  `Failure(IndexError(line))`.
- `Store`: the class `SnapshotStore`. Its field `snapshots` maps each
  snapshot's moment, in whole UTC seconds, to its text. It has methods for
  `prune`, the newest-snapshot loop, `check_mtime`'s local decision, `save`,
  `generate` and `generate_latest`.
  - One pass of `iterdir()` is a sequence `order` with `IsListing`: every key
    exactly once, in any order.
  - `save`'s candidate list is specified independently as `Chain(order)`:
    the running maxima of the pass, newest first, cut to
    `DUPLICATE_CHECK_DEPTH` and padded with `None`.
- `Pipeline`: one feed's turn of `main` (`ProcessSource`) and the loop over
  the seven feeds (`Run`). The outcomes are "no update", "fetch failed",
  convert raising, "touch filename", and a completed run with its five
  windows and `latest.txt`.

These are inputs: the result of the HEAD request (`Head`), the body of the
GET request (`Option<string>`), the clock (`now`), and
`adler32(text.encode())` (the function `checksum`).

Behaviour of the script that the model follows:

- `save` does not compare against the `DUPLICATE_CHECK_DEPTH` newest snapshots. It compares
  against the running maxima of one directory pass. With the listing order
  1, 3, 2, the second newest snapshot is never compared
  (`ChainSkipsSecondNewest`, `SaveMissesSecondNewest`).
- A deduplicated write ("touch filename") ends the feed's turn. The windows
  and `latest.txt` are not regenerated.
- A failed HEAD request in `check_mtime` answers "no update". It is not
  reported as a fetch failure.
- An `IndexError` in `convert` is not caught. It ends the whole run, so the
  later feeds are not processed (`Run`).
- Saving the same content a second time is only sure not to add a snapshot
  when the clock has moved forward and the first save's snapshot is still the
  newest (`SaveTwice`, `SaveNewestMatches`).

## Model

| member | source | states |
|---|---|---|
| `Text.Split` | update.py:70-79 | `str.split` with a non-empty separator always gives at least one field |
| `Text.Contains` | update.py:66 | Python's `sub in s`: some index of `s` starts an occurrence of `sub` |
| `Text.Join` | update.py:83 | `sep.join(items)`: the items in order with `sep` between neighbours; `""` for no items |
| `Text.SplitLines` | update.py:61 | `s.splitlines()` for `\n` breaks: the pieces between line feeds, no extra piece after a final line feed, none for `""` |
| `Text.Strip` | update.py:79 | `s.strip(c)`: `s` without its leading and trailing run of `c` |
| `Text.LexLe` | update.py:82 | `a <= b` on str: `a` is a prefix of `b`, or at the first differing index `a` has the smaller code point |
| `Text.Sort` | update.py:82 | `list.sort()` leaves a sorted permutation of the list |
| `Text.SortedUnique` | update.py:82 | two sorted permutations of the same items are equal, so the sorted list does not depend on the input order |
| `Text.LexLeTotal` | update.py:82 | every two strings are ordered one way or the other |
| `Text.LexLeTransitive` | update.py:82 | the string order is transitive |
| `Text.LexLeAntisymmetric` | update.py:82 | strings ordered both ways are equal |
| `Text.JoinSplit` | update.py:70-79 | joining the fields of a split with the same separator gives the text back |
| `Text.SplitSingleIff` | update.py:70-79 | a split gives one field exactly when the separator does not occur |
| `Text.SplitCount` | update.py:72-73 | a split on a character has one more field than the character has occurrences |
| `Text.FirstField` | update.py:70 | field 0 of a split on a character is the text before its first occurrence, or the whole text |
| `Text.SplitFieldsWithout` | update.py:70-75 | no field of a split on a character contains that character |
| `Text.SplitJoin` | update.py:83 | splitting a join of character-free items on that character gives the items back |
| `Text.LinesJoin` | update.py:83 | the lines of a newline-join are the items when none holds a line feed and the last is not empty |
| `Text.SplitLinesWithout` | update.py:61 | no line that `splitlines` gives holds a line feed |
| `Text.StripFacts` | update.py:79 | `strip(c)` neither starts nor ends with `c`, keeps only characters of its input, and leaves a `c`-free text unchanged |
| `Normalizer.Convert` | update.py:59-83 | the loop returns the newline-join of `Converted`'s sorted list, or the `IndexError` of the first kept line whose rule fails |
| `Normalizer.FormatOf` | update.py:68-81 | the `match` arm a feed name selects, tried in order: bruteforceblocker, dshield, turris, any name starting with `spamhaus_drop`, otherwise verbatim |
| `Normalizer.Keep` | update.py:62-67 | a line reaches the `match` exactly when it is not empty, does not start with `#`, and holds a `.` or a `:` |
| `Normalizer.Extract` | update.py:68-81 | the five line rules: field 0 of a tab split; fields 0 and 2 of a tab split joined by `/`, raising below three fields; field 0 of a comma split; skip on `metadata`, else field 1 of the `":` split of field 0 of the `,"` split with `"` stripped, raising below two fields; the line itself |
| `Normalizer.Step` | update.py:61-81 | one line of the loop: skipped by the filter, or passed to its rule |
| `Normalizer.Collect` | update.py:60-81 | the list the loop builds, line by line, or the `IndexError` of the first line that raised |
| `Normalizer.Converted` | update.py:59-83 | the collected list sorted, or the error |
| `Normalizer.Kept` | update.py:61-67 | the lines the filter lets through, in order |
| `Normalizer.CollectFailurePersists` | update.py:61-81 | once a line has raised, the later lines do not change the outcome |
| `Normalizer.CollectOrigin` | update.py:61-81 | every collected item comes from a line that passes the filter, through that line's rule; there are never more items than lines |
| `Normalizer.CollectFailureIff` | update.py:61-81 | convert fails exactly when some line passes the filter and its rule raises |
| `Normalizer.TotalFormats` | update.py:69-81 | the bruteforceblocker, turris and verbatim rules never raise |
| `Normalizer.CollectVerbatim` | update.py:61-67 | the verbatim rule collects exactly the filtered lines, in order, duplicates kept |
| `Normalizer.ConvertedSorted` | update.py:82-83 | the list convert joins is sorted and is a permutation of the collected items |
| `Normalizer.ConvertedVerbatim` | update.py:80-82 | for a verbatim feed, convert never fails and yields the filtered lines in sorted order, nothing dropped or merged |
| `Normalizer.FirstFieldRules` | update.py:69-75 | bruteforceblocker and turris keep the text before the first tab or comma, never raise, and the item holds no separator |
| `Normalizer.AddressSlashPrefixRule` | update.py:71-73 | dshield turns `e0 TAB e1 TAB e2 ...` into `e0/e2` |
| `Normalizer.AddressSlashPrefixFailure` | update.py:71-73 | dshield raises exactly when a line has fewer than two tabs |
| `Normalizer.AddressSlashPrefixExample` | update.py:71-73 | `10.0.0.1 TAB TCP TAB 32` gives `10.0.0.1/32` |
| `Normalizer.AsnJsonLineMetadata` | update.py:77-78 | a spamhaus_drop line that mentions `metadata` is skipped |
| `Normalizer.AsnJsonLineFailure` | update.py:76-79 | a spamhaus_drop line without `metadata` raises exactly when no `":` comes before its first `,"` |
| `Normalizer.AsnJsonLineRule` | update.py:76-79 | on `{"key":value,"...` without quotes, colons or commas in key and value, the item is the value |
| `Normalizer.ExtractWithoutNewline` | update.py:68-81 | no rule makes an item with a line feed out of a line without one |
| `Normalizer.CollectWithoutNewline` | update.py:61-81 | no collected item holds a line feed |
| `Normalizer.ConvertRoundTrip` | update.py:82-83 | reading back the lines of convert's output gives its sorted list, unless every item of a non-empty list is empty |
| `Store.ListingEmpty` | update.py:28-35 | a directory pass is empty exactly when the store is |
| `Store.MaxOf` | update.py:28-33 | the newest moment is in the store and no snapshot is newer |
| `Store.Pruned` | update.py:19-24 | a snapshot is kept exactly when its age is at most 30 days and two hours, with its text unchanged |
| `Store.Horizon` | update.py:23 | `timedelta(days=days, hours=2)` in seconds |
| `Store.Expired` | update.py:22-23 | the age test of prune and generate: `now - ts` above the horizon |
| `Store.IsListing` | update.py:21 | one `iterdir()` pass: distinct keys, exactly those of the store |
| `Store.Fresh` | update.py:34-47 | check_mtime's answer: true on an empty store, else true exactly when HEAD succeeded and no snapshot is later than Last-Modified |
| `Store.Matches` | update.py:96-98 | a candidate that is present and whose snapshot has the new checksum |
| `Store.Renamed` | update.py:100 | the snapshot at `from` now sits at `to` with its text; every other snapshot is kept, and `from` is gone unless it is `to` |
| `Store.SaveSpec` | update.py:85-103 | save for one listing: rename the first matching candidate of `Chain` to `now` and answer false, or write the content at `now` and answer true |
| `Store.Window` | update.py:105-113 | the set of every line of every snapshot whose age is within `days` days and two hours |
| `Store.PruneIdempotent` | update.py:19-24 | pruning again at the same moment removes nothing more |
| `Store.PruneExample` | update.py:19-24 | of snapshots 2, 5, 10 and 40 days old, only the 40-day one goes |
| `Store.FreshNewest` | update.py:26-47 | a non-empty store proceeds exactly when HEAD succeeded and the newest snapshot is not later than Last-Modified |
| `Store.Records` | update.py:88-93 | the running maxima of a pass are strictly decreasing, come from the pass, and start with its largest element |
| `Store.Chain` | update.py:87-93 | the candidate list always has `DUPLICATE_CHECK_DEPTH` entries |
| `Store.FirstMatch` | update.py:95-101 | the answer is the first candidate whose snapshot has the new checksum, or `None` when no candidate has it |
| `Store.SnapshotStore.constructor` | update.py:153-154 | a store directory with the given snapshots |
| `Store.SnapshotStore.Listing` | update.py:21 | one pass of `iterdir()` lists every snapshot exactly once |
| `Store.SnapshotStore.Prune` | update.py:19-24 | the store after the loop is `Pruned` of the store before |
| `Store.SnapshotStore.LatestKey` | update.py:27-35 | the loop finds nothing exactly on an empty store, and otherwise the newest snapshot |
| `Store.SnapshotStore.CheckMtime` | update.py:26-47 | proceed on an empty store; otherwise proceed exactly when HEAD succeeded and no snapshot is newer than Last-Modified |
| `Store.SnapshotStore.Save` | update.py:85-103 | the new store and the answer are those of `SaveSpec`: rename to `now` and false for the first matching candidate of `Chain`, otherwise write at `now` and true |
| `Store.SnapshotStore.Generate` | update.py:105-114 | the set is `Window`: every line of every snapshot at most `days` days and two hours old, and nothing else |
| `Store.SnapshotStore.GenerateLatest` | update.py:116-124 | on a non-empty store, the text of the newest snapshot |
| `Store.ChainStep` | update.py:89-93 | one step of the loop over `Chain` of a pass turns it into `Chain` of the pass one element longer |
| `Store.ChainInStore` | update.py:95-98 | every candidate names a snapshot of the store |
| `Store.WindowOverStep` | update.py:108-113 | one step of the loop adds exactly the lines of that snapshot when it is young enough |
| `Store.WindowOverListing` | update.py:108-113 | the union over a whole pass is the window |
| `Store.ChainShape` | update.py:87-93 | the present candidates are a prefix of strictly decreasing store moments; the first is present exactly on a non-empty store, and it is the newest |
| `Store.ChainSkipsSecondNewest` | update.py:87-93 | for the listing 1, 3, 2 the candidates are 3 and 1 only |
| `Store.SaveMissesSecondNewest` | update.py:85-103 | so with that listing, a match on the second newest snapshot still creates a fourth snapshot |
| `Store.RenamedFacts` | update.py:100 | renaming keeps the count, moves one text to the new moment and leaves the other snapshots alone |
| `Store.SaveOutcomes` | update.py:85-103 | save answers false exactly when some candidate matches; that snapshot then moves to `now` with its text and the count stays; otherwise only `now := content` is added |
| `Store.SaveLeavesNewest` | update.py:94-103 | after a save at a moment later than every snapshot, the newest snapshot is at that moment with the saved content's checksum |
| `Store.SaveNewestMatches` | update.py:87-101 | when the newest snapshot already has the content's checksum, save answers false and keeps the count, whatever the listing order |
| `Store.SaveTwice` | update.py:85-103 | saving the same content twice in a row at non-decreasing later moments answers false the second time without growing the store |
| `Store.SaveExample` | update.py:85-103 | a store holding `1.2.3.0/24` once, saved again with the same text, holds it once, at the new moment |
| `Store.WindowMembers` | update.py:105-113 | a line is in the window exactly when some snapshot young enough contains it |
| `Store.WindowMonotone` | update.py:110 | a shorter window is a subset of a longer one |
| `Store.WindowExample` | update.py:105-113 | a 7-day window over `{A, B}` 3 days old and `{B, C}` 10 days old is `{A, B}` |
| `Pipeline.ProcessSource` | update.py:153-179 | a feed's turn ends as `Processed` says: no update, fetch failed, convert failure, touch filename, or a completed run with the windows and newest text of the store `save` left |
| `Pipeline.Run` | update.py:150-180 | the feeds are processed in order, each as `ProcessSource` says; the run stops right after the first convert failure, and later stores are untouched |
| `Pipeline.Windows` | update.py:174-178 | the five lists `30d`, `14d`, `7d`, `3d`, `1d`, each the window of its day count |
| `Pipeline.Processed` | update.py:158-179 | one turn from the store before to the store after: no update, fetch failed or convert failure on the pruned store, else the end of save |
| `Pipeline.SavedTurn` | update.py:166-179 | the end of a turn that reached save: save's new store, then touch filename, or the windows and newest text of that store |
| `Pipeline.SourceFormats` | update.py:9-17 | dshield, spamhaus_drop_asn and turris get their own rules, the other four feeds are verbatim, and no feed reaches the bruteforceblocker arm |
| `Pipeline.WindowsNested` | update.py:174-178 | `1d` ⊆ `3d` ⊆ `7d` ⊆ `14d` ⊆ `30d` |
| `Pipeline.CompletedLatest` | update.py:166-179 | a completed turn wrote the converted text at `now`; when the clock is past every kept snapshot, `latest.txt` is that text and every window holds each of its lines |
| `Pipeline.NewestInWindows` | update.py:174-178 | each of the five windows holds every line of the snapshot at `now` |
| `Pipeline.TouchKeepsCount` | update.py:167-169 | a "touch filename" turn keeps the number of snapshots when no kept snapshot is already at `now` |
| `Pipeline.ProcessedRetains` | update.py:158-179 | after any turn, every snapshot other than the one at `now` was there before and is within the retention period |

## Left out

- HTTP: the HEAD request of `check_mtime` (update.py:36-42) and the whole of `fetch` (update.py:49-57) are inputs. `Head` is their status and Last-Modified time, and `Option<string>` is the GET body.
- Parsing Last-Modified with `strptime`, and the `KeyError` when the header is missing (update.py:43): the time arrives already parsed.
- File names: `strptime`/`strftime` of `%Y%m%d.%H%M%S` are not modelled. A snapshot is keyed by its moment in whole seconds, so a malformed file name cannot occur.
- `datetime.utcnow()` microseconds: `now` is whole seconds. An age exactly at a bound, with a fractional `now`, is judged the other way in Python.
- Each `utcnow()` call of one turn (prune, save, each generate) reads the same `now` in `ProcessSource`.
- `Pipeline.ProcessSource`: does not say which listing order `save` saw, only that one exists. The order of `iterdir()` belongs to the file system.
- `adler32` is the parameter `checksum`. Only "equal text, equal checksum" is used, and collisions are allowed.
- `splitlines` is modelled for `\n` only. Python also breaks lines at `\r`, `\r\n`, `\v`, `\f`, `\x1c`-`\x1e`, `\x85`, `\u2028` and `\u2029`.
- `generate_asn` (update.py:126-148): it makes one network request per ASN and decodes JSON.
- The order in which `'\n'.join(ipset)` writes a set: Python leaves it unspecified, so `Generate` returns the set itself.
- File-system effects other than the store map: `mkdir`, `touch` (mtime only), the files under `lists/`, and `print`.
- The case where the renamed file's target already exists: a save and an earlier snapshot in the same second share one key.
