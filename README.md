# deluge_cleanup — a verified model

`deluge_cleanup.py` removes torrents that have seeded enough from a Deluge client.
It works in four steps:

1. It asks the Deluge console for a detailed report of every torrent (`info --detailed`).
2. It parses that report into torrent records.
3. It classifies each record against a share-ratio limit and a list of allowed trackers.
4. Outside test mode, it pauses and then removes (`pause <id>`, `rm <id>`) every seeding torrent whose ratio has reached the limit, unless its tracker is allowed.

It counts every torrent under one of four headings and prints the counts.

This project models that core in Dafny and proves what it promises.

| module | file | what it holds |
|---|---|---|
| `Wrappers` | `wrappers.dfy` | `Option` and `Result` |
| `Text` | `text.dfy` | the Python string operations the parser relies on: `str.split` (`Split`), `in` (`Contains`/`IndexOf`), `startswith`, `strip` (`Strip`, with Python's `isspace` set), and a `Join` used as their inverse |
| `Console` | `console.dfy` | the `Torrent` record, and the `Deluge` object through which every console command is issued. `issued` is the log of those commands, in order. |
| `Report` | `report.dfy` | `parse_torrent_info`: `Parse` is a specification function in three layers (line → entry, entries → fields of one block, blocks → records). `ReadSection`/`ParseTorrentInfo` are the loops proved equal to it. A rendering function serves as its inverse for the round-trip theorem. |
| `Policy` | `policy.dfy` | the classification and counting loop of `main`. It is specified by `Classify`, `TallyOf`, `ToDelete` and `DeletionCommands`. `Cleanup` is the loop and `Run` is fetch, parse and clean up. |

How the world outside the program appears in the model:

- **The console process.** It is an injected function `console: string -> Option<string>`: the text the command writes to standard output, as Python decodes it with `text=True` (so `\r\n` and `\r` have already become `\n`), or `None` when the command exits with a failure status.
- **`float()`.** It is an injected `RatioParser = string -> Option<real>`; `None` means the conversion raises. Such a failure aborts the whole parse with `Err(BadRatio(text))`, as the unhandled exception aborts the program.
- **Running a command.** It appends the command to `issued` and answers with the stripped output, or with `""` on failure.

## Model

| member | source | states |
|---|---|---|
| Text.IndexOf | deluge_cleanup.py:74 | the result is the leftmost position where the pattern occurs, and None exactly when it occurs nowhere |
| Text.Split | deluge_cleanup.py:61-64 | `str.split(sep)`: at least one piece, two or more exactly when the text contains the separator, and then the first cut falls at the leftmost occurrence (so `"\n\n\n"` splits into `""` and `"\n"`) |
| Text.SplitJoin | deluge_cleanup.py:61-64 | joining the pieces of a split with the separator gives back the original text |
| Text.SplitPiecesFree | deluge_cleanup.py:61-64 | no piece of a split contains the separator |
| Text.JoinSplit | deluge_cleanup.py:61-64 | splitting undoes joining when no separator starts inside a piece |
| Text.AfterLabelShape | deluge_cleanup.py:68-77 | `line.split(label)[1]` is the text from just after the first label up to the next label or the end of the line, and holds no label |
| Text.AfterLeadingMarker | deluge_cleanup.py:68-73 | for a line that starts with its label and holds it nowhere else, the text after the label is the rest of the line |
| Text.Strip | deluge_cleanup.py:69 | `str.strip()` never lengthens the text and leaves no whitespace at either end |
| Text.StripPadded | deluge_cleanup.py:69 | stripping whitespace padding off a clean text gives the text |
| Console.CommandsDistinct | deluge_cleanup.py:49-57 | a pause command is never a remove command, and each names exactly one torrent id |
| Console.Torrent.Stop | deluge_cleanup.py:49-52 | issues exactly `pause <id>` |
| Console.Torrent.Remove | deluge_cleanup.py:54-57 | issues exactly `rm <id>` |
| Console.Deluge.constructor | deluge_cleanup.py:7-13 | a new client has issued no command yet |
| Console.Deluge.Reply | deluge_cleanup.py:15-32 | a reply never has surrounding whitespace; a failed command answers `""`; clean output passes through unchanged |
| Console.Deluge.ReplyPadded | deluge_cleanup.py:28 | the reply is `stdout.strip()`: output made of whitespace, a clean text and whitespace answers that clean text |
| Console.Deluge.RunCommand | deluge_cleanup.py:15-32 | logs the command once, at the end of the log, and returns its reply |
| Console.Deluge.GetAllTorrents | deluge_cleanup.py:34-35 | issues `info --detailed` once and returns its reply |
| Console.Deluge.StopAndRemove | deluge_cleanup.py:37-39 | issues `pause <id>` and then `rm <id>`, and nothing else |
| Report.KindOf | deluge_cleanup.py:67-77 | one if-and-only-if per kind: a line starting with `Name:` is a name line; otherwise one starting with `ID:` an id line; otherwise one starting with `State:` a state line; otherwise one holding `Share Ratio:` anywhere a share ratio line; otherwise one starting with `Tracker:` a tracker line; any other line sets nothing |
| Report.TrackerLineWithRatio | deluge_cleanup.py:74-77 | a line starting with `Tracker:` that also holds `Share Ratio:` is a share ratio line, since the ratio test comes first |
| Report.MidLineRatio | deluge_cleanup.py:74-75 | a line such as `Seed time: ... Share Ratio: v`, where the label is not at the start, is a share ratio line |
| Report.FieldValue | deluge_cleanup.py:69 | a field value never has surrounding whitespace |
| Report.ReadLabelledLine | deluge_cleanup.py:67-77 | a label followed by a rest that does not repeat it reads as that field set to the stripped rest (for a tracker line, one that does not mention the share ratio; the other case is `TrackerLineWithRatio`) |
| Report.ScanLinesEntries | deluge_cleanup.py:65-77 | reading a block line by line is folding the lines' entries from blank fields |
| Report.ScanEntriesFails | deluge_cleanup.py:74-75 | a block fails exactly when one of its share ratios does not convert, and it reports the first such text |
| Report.LastOfKind | deluge_cleanup.py:67-77 | the position of the last entry of a kind, or None when there is none |
| Report.ScanEntriesLastWins | deluge_cleanup.py:65-77 | each text field holds the value of the last entry of its kind, and is empty when there is none (fields reset per block) |
| Report.ScanEntriesRatio | deluge_cleanup.py:65-75 | the ratio is the conversion of the last share-ratio entry, and 0 when the block has none |
| Report.LinesLastWins | deluge_cleanup.py:65-77 | stated on lines: each text field is the stripped text after the label on the last line of its kind, or empty |
| Report.LinesRatio | deluge_cleanup.py:65-75 | stated on lines: the ratio converts the stripped text after `Share Ratio:` on the last such line, or is 0 |
| Report.CollectPrefixError | deluge_cleanup.py:63-81 | once a block fails, the whole parse fails with that block's error |
| Report.CollectAppend | deluge_cleanup.py:60-81 | the records of consecutive blocks are those of the first blocks followed by those of the rest; the first error wins |
| Report.CollectSingle | deluge_cleanup.py:79-81 | one block yields its record when the record has both a name and an id, and nothing otherwise |
| Report.CollectShape | deluge_cleanup.py:79-81 | there are never more records than blocks; every record has a name and an id and comes from a block; every block with both is kept |
| Report.EntriesWithoutNameOrId | deluge_cleanup.py:79-81 | a block with no name entry, or no id entry, is dropped |
| Report.LinesWithoutNameOrId | deluge_cleanup.py:79-81 | lines with no `Name:` line, or no `ID:` line, yield no record, whatever else they hold |
| Report.BlockWithoutNameOrId | deluge_cleanup.py:79-81 | a block of the dump without a name or an id line contributes no record |
| Report.ParseWithoutPairs | deluge_cleanup.py:59-89 | a dump in which no block has both a name line and an id line parses to no record at all (or to the error of a ratio that does not convert) |
| Report.CollectNoneKept | deluge_cleanup.py:79-81 | blocks none of which has both a name and an id yield no record |
| Report.LinesWithoutRatio | deluge_cleanup.py:65 | lines without a share-ratio line always scan, with ratio 0 |
| Report.BlockWithoutRatio | deluge_cleanup.py:65 | a block without a share-ratio line keeps the default ratio 0 |
| Report.ParseEmpty | deluge_cleanup.py:59-89 | the empty dump parses to no records |
| Report.ReadFieldLine | deluge_cleanup.py:67-77 | `<Label> <value>` reads as that field set to the value, for a value without surrounding whitespace or line break that does not repeat the label (and, on a tracker line, does not mention the share ratio); colons are otherwise allowed, as in `host:port` |
| Report.RenderedLinesScan | deluge_cleanup.py:64-77 | the five labelled lines of a renderable torrent (as for `ParseRenderedReport`) read back as that torrent |
| Report.RenderedBlockScans | deluge_cleanup.py:64-77 | the rendered block of a renderable torrent (as for `ParseRenderedReport`) scans back to it |
| Report.ParseRenderedReport | deluge_cleanup.py:59-89 | parsing inverts rendering: a report listing torrents that have a non-empty name and id, whose values have no surrounding whitespace or line break and do not repeat their own label, whose tracker does not mention `Share Ratio:`, and whose ratio texts convert, parses to exactly those torrents, in order |
| Report.ParseSampleReport | deluge_cleanup.py:59-89 | the report `Name: X`, `ID: 1`, `State: Seeding`, `Share Ratio: 0.6`, `Tracker: t1` parses to that one torrent |
| Report.ReadSection | deluge_cleanup.py:64-77 | the inner loop computes the block's fields, or stops at the first share ratio that does not convert |
| Report.ParseTorrentInfo | deluge_cleanup.py:59-89 | `parse_torrent_info` equals `Parse`; it returns no more records than blocks, and every record has a name and an id |
| Policy.Classify | deluge_cleanup.py:182-208 | four if-and-only-ifs: an allowed tracker is never deleted, only counted as over or under the limit; any other torrent is deleted exactly when it is seeding with ratio at or over the limit |
| Policy.LimitIsInclusive | deluge_cleanup.py:194 | a seeding torrent exactly at the limit, from a tracker that is not allowed, is deleted |
| Policy.StricterDeletesLess | deluge_cleanup.py:183-194 | a higher limit or more allowed trackers never deletes a torrent that the laxer setting keeps |
| Policy.Tally.Count | deluge_cleanup.py:185-206 | counting one torrent raises its own counter by one and leaves the other three alone |
| Policy.TallyTotal | deluge_cleanup.py:177-213 | the four counters add up to the number of parsed torrents |
| Policy.TallyCounts | deluge_cleanup.py:182-208 | each counter equals the number of torrents with that disposition |
| Policy.WithDispositionMember | deluge_cleanup.py:182-208 | a torrent is listed under a disposition exactly when it is one of the torrents and classified so |
| Policy.WithDispositionAppend | deluge_cleanup.py:182-208 | selection keeps list order |
| Policy.DeletedOnlyOverLimit | deluge_cleanup.py:183-199 | every deleted torrent is one of the parsed ones, has a tracker that is not allowed, is seeding, and is at or over the limit |
| Policy.StricterDeletesFewer | deluge_cleanup.py:182-199 | a stricter setting deletes a subset of what a laxer one deletes, and never more torrents |
| Policy.Summary | deluge_cleanup.py:212-222 | total equals the number of torrents; "Total skipped" (the three skip counters) equals the number of torrents minus deleted; deleted equals the number of deletions; two commands per deletion |
| Policy.DeletionCommandsShape | deluge_cleanup.py:194-199 | command 2k is `pause` and command 2k+1 is `rm` of the k-th deleted torrent |
| Policy.DeletionCommandsAppend | deluge_cleanup.py:194-199 | the commands for two lists in turn are those of the joined list |
| Policy.DeletionCommandsMutateOnly | deluge_cleanup.py:198-199 | deleting never re-fetches the report: every command is the `pause` or the `rm` of one of the deleted torrents, never `info --detailed` |
| Policy.SingleTally | deluge_cleanup.py:182-208 | one torrent on its own is counted once, under its disposition |
| Policy.SingleToDelete | deluge_cleanup.py:194-199 | one torrent on its own is deleted alone or not at all |
| Policy.SingleCommands | deluge_cleanup.py:194-199 | deleting one torrent on its own issues `pause <id>` then `rm <id>`, and nothing otherwise |
| Policy.SingleDeleted | deluge_cleanup.py:194-195 | a seeding torrent over the limit from a tracker that is not allowed counts as one deletion and nothing else |
| Policy.SingleAllowedOverLimit | deluge_cleanup.py:183-187 | the same torrent from an allowed tracker counts as allowed-over-limit and is not deleted |
| Policy.SingleNotSeeding | deluge_cleanup.py:205-206 | a torrent that is not seeding, from a tracker that is not allowed, counts as skipped for ratio, whatever its ratio |
| Policy.SampleReportDeleted | deluge_cleanup.py:174-199 | the sample report with limit 0.5 and no allowed tracker yields one torrent, deleted with `pause 1` then `rm 1` |
| Policy.Cleanup | deluge_cleanup.py:177-208 | the loop's counters are `TallyOf`; outside test mode it issues exactly the deletion commands of `ToDelete`, in order; in test mode it issues nothing |
| Policy.Run | deluge_cleanup.py:174-208 | fetches the report once; a ratio that does not convert ends the run with only that fetch issued; otherwise the result and the command log are those of `Cleanup` on the parsed torrents |

## Left out

- Connection details: host, port, user and password, the `deluge-console "connect …; <command>"` wrapping, the `docker exec` routing and the subprocess call itself. The console is the injected `console` function; only the subcommand is logged.
- Console.Deluge.RunCommand: a failing command is modelled by `console` returning None, which is the checked direct-shell branch. The container branch (lines 21-23) does not check the exit status and returns whatever was printed. The model covers that case with `Some(output)`, but it does not tell the two branches apart.
- The console is a fixed function of the command: replies do not depend on earlier commands (e.g. a torrent still listed after `rm`), because the program never issues a second `info`.
- `verbose` and every `print`/`print_stat` line are left out because they are output only. `Summary` states the numbers that are printed.
- Configuration: `load_config`, `save_config`, YAML, `argparse` and the required-arguments check (lines 91-165) are left out. `Run` takes the resulting limit, allowed trackers and test flag as parameters. Test mode also raises the verbosity, which only affects printing.
- Floating point: ratios are exact `real`s, and `float()` is the `RatioParser` parameter. IEEE rounding, NaN (which makes every `>=` false) and infinities are not modelled.
- Blank lines: the dump is split on the literal two-character separator `"\n\n"`, as the code does. A run of three newlines therefore leaves an empty first line in the next block, which is ignored like any unrecognised line. This follows the code, not a reading of "blank line" that would also accept whitespace-only lines.
- `RenderReport`, `RenderBlock` and `Renderable` are not in the source. They are the model's inverse of the parser, used to state the round trip and the sample scenario.
- Torrents are immutable values (`datatype`), since the source never changes a `Torrent` after building it.
