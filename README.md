# Process manager: list loading, search filter and list updates

A Dafny model of the controller of a small JavaFX desktop application that lists
the Windows processes (by running `tasklist`), lets the user search them, and kills,
restarts or launches processes (by running `taskkill /F /PID` or the program itself).
Everything the controller decides on its own is modelled: how the text printed by
`tasklist` becomes the list of `(name, pid)` records, which records the search box
shows, and how the list changes after a kill, a restart or a launch.

The operating system is replaced by parameters:

- the output of `tasklist` is `Option<seq<string>>`, its lines; `None` stands for a
  command that could not be started (the `IOException` is caught before the list is
  cleared, so the list stays as it was);
- the kill command is its exit code, an `int`;
- a launch (of the restarted program, or of the one named in the "create" dialog) is a
  `bool`: whether `ProcessBuilder.start()` returned;
- the row selected in the table is an `Option<ProcessModel>`.

Files:

- `wrappers.dfy` (module `Wrappers`): the `Option` type.
- `java_lib.dfy` (module `JavaLib`): the Java library calls the controller depends on,
  written out: `String.trim`, `String.split("\\s+")` on a trimmed string,
  `Integer.parseInt`, `String.valueOf(int)`, `toLowerCase`, `equalsIgnoreCase`,
  `String.contains`, `List.indexOf` and `List.remove(Object)`, with lemmas tying each to
  an independent description (split keeps every non-space char, `parseInt` inverts
  `valueOf`, `equalsIgnoreCase` is equality after lower-casing, `contains` is an
  occurrence at some index, `remove` takes out exactly one copy and keeps the order).
- `tasklist.dfy` (module `Tasklist`): the `ProcessModel` record, the fate of one output
  line (`ParseLine`: too few fields, unparsable pid, excluded `svchost.exe`, or
  accepted), the list a whole output yields (`Loaded`), and the lemmas about it.
- `search.dfy` (module `Search`): the search rule and the lemmas about it.
- `process_manager_app.dfy` (module `ProcessManager`): the class `ProcessManagerApp`
  whose field `processList` the methods rebuild and shrink, and read for the search; the loading and
  filtering loops are proved against the functions of `Tasklist` and `Search`.

Some facts about the code that the model keeps as they are:

- the excluded name is the hard-coded `svchost.exe`;
- the kill command is issued for the selected pid without checking the current list;
- there are no timeouts, typed errors or change events: failures print a message and
  leave the list as it was;
- a restart whose relaunch fails to start skips the reload (line 145 throws before
  line 149), so the list keeps the process that was just killed (`HandleReiniciar`
  states this case as it is).

## Model

| member | source | states |
|---|---|---|
| `JavaLib.Trim` | AplicacionProcesos/src/aplicacionprocesos/ProcessManagerApp.java:85 | `trim()` returns the slice of the line that starts at the first char above U+0020, drops only chars at or below U+0020 at the end, and has none at either end |
| `JavaLib.Tokens` | AplicacionProcesos/src/aplicacionprocesos/ProcessManagerApp.java:85 | every field produced by the split is non-empty and holds no white space |
| `JavaLib.TokensKeepEveryNonSpaceChar` | AplicacionProcesos/src/aplicacionprocesos/ProcessManagerApp.java:85 | the fields, joined, are exactly the non-white-space chars of the line in their order |
| `JavaLib.TokensStartingWith` | AplicacionProcesos/src/aplicacionprocesos/ProcessManagerApp.java:85-89 | a line that starts with a space-free word followed by a space splits into that word, then the fields of the rest |
| `JavaLib.SplitOnSpaces` | AplicacionProcesos/src/aplicacionprocesos/ProcessManagerApp.java:85-88 | `split("\\s+")` of a trimmed line gives at least one field; an empty trimmed line gives exactly one empty field (so it has fewer than two), any other line only non-empty fields without white space |
| `JavaLib.ParseInt` | AplicacionProcesos/src/aplicacionprocesos/ProcessManagerApp.java:91 | a pid that parses is a Java `int`; its text is an optional sign followed by ASCII digits only, at least one of them |
| `JavaLib.ParseIntIffNumeral` | AplicacionProcesos/src/aplicacionprocesos/ProcessManagerApp.java:91 | a text parses exactly when it is an optional `+`/`-` and one or more digits whose value fits an `int`, and it parses to that value |
| `JavaLib.ParseIntLeadingZeros` | AplicacionProcesos/src/aplicacionprocesos/ProcessManagerApp.java:91 | leading zeros do not change the value that is read |
| `JavaLib.ParseIntPlusSign` | AplicacionProcesos/src/aplicacionprocesos/ProcessManagerApp.java:91 | a leading `+` (before any zeros) does not change the value that is read |
| `JavaLib.ParseIntMinusSign` | AplicacionProcesos/src/aplicacionprocesos/ProcessManagerApp.java:91 | a leading `-` negates the value, down to the smallest `int`, so `-0` reads as 0 |
| `JavaLib.ParseIntSamples` | AplicacionProcesos/src/aplicacionprocesos/ProcessManagerApp.java:91 | `+7` and `007` read as 7, `-0` as 0; `1a`, `-` and the empty text throw |
| `JavaLib.IntToStringIsNumeral` | AplicacionProcesos/src/aplicacionprocesos/ProcessManagerApp.java:119 | `String.valueOf(n)` prints an optional `-` and digits whose value is `n`, for every integer |
| `JavaLib.ParseIntOfIntToString` | AplicacionProcesos/src/aplicacionprocesos/ProcessManagerApp.java:91 | `Integer.parseInt(String.valueOf(n)) == n` for every `int` |
| `JavaLib.ParseIntOutOfRange` | AplicacionProcesos/src/aplicacionprocesos/ProcessManagerApp.java:91 | the decimal text of a number outside the `int` range makes `parseInt` throw |
| `JavaLib.IntToString` | AplicacionProcesos/src/aplicacionprocesos/ProcessManagerApp.java:119 | `String.valueOf(pid)` is non-empty, has no char that `trim` strips or `split` splits at, starts with `-` exactly for a negative pid, and is otherwise all digits |
| `JavaLib.ToLower` | AplicacionProcesos/src/aplicacionprocesos/ProcessManagerApp.java:118 | `toLowerCase` keeps the length, leaves no upper-case ASCII letter, and changes each char only in its letter case |
| `JavaLib.ToLowerIdempotent` | AplicacionProcesos/src/aplicacionprocesos/ProcessManagerApp.java:118 | lower-casing an already lower-cased name or term changes nothing |
| `JavaLib.EqualsIgnoreCase` | AplicacionProcesos/src/aplicacionprocesos/ProcessManagerApp.java:94 | `equalsIgnoreCase` holds of every string and itself (that it holds exactly of strings that lower-case alike is `EqualsIgnoreCaseIffSameLower`) |
| `JavaLib.EqualsIgnoreCaseIffSameLower` | AplicacionProcesos/src/aplicacionprocesos/ProcessManagerApp.java:94 | `equalsIgnoreCase` holds exactly when both strings lower-case to the same string |
| `JavaLib.Contains` | AplicacionProcesos/src/aplicacionprocesos/ProcessManagerApp.java:118-119 | `contains` holds for the empty term and for every prefix, and never for a term longer than the text |
| `JavaLib.ContainsIffOccurs` | AplicacionProcesos/src/aplicacionprocesos/ProcessManagerApp.java:118-119 | `contains` holds exactly when the term occurs at some index of the text |
| `JavaLib.IndexOf` | AplicacionProcesos/src/aplicacionprocesos/ProcessManagerApp.java:180 | the index found holds the element and no earlier index does; -1 exactly when the element is absent |
| `JavaLib.Remove` | AplicacionProcesos/src/aplicacionprocesos/ProcessManagerApp.java:180 | `remove(x)` leaves an absent `x`'s list unchanged, otherwise takes out one copy of `x` and nothing else (length one less, multiset minus `x`) |
| `JavaLib.RemoveKeepsOrder` | AplicacionProcesos/src/aplicacionprocesos/ProcessManagerApp.java:180 | the records before the removed one keep their places and those after it move up by one |
| `Tasklist.Fields` | AplicacionProcesos/src/aplicacionprocesos/ProcessManagerApp.java:85 | `line.trim().split("\\s+")` gives at least one field, and exactly one empty field when trimming empties the line |
| `Tasklist.FieldsPieces` | AplicacionProcesos/src/aplicacionprocesos/ProcessManagerApp.java:85 | the fields, joined, are the trimmed line without its white space; a line of nothing but chars at or below U+0020 gives one empty field, any other line only non-empty fields without white space |
| `Tasklist.SkippedLines` | AplicacionProcesos/src/aplicacionprocesos/ProcessManagerApp.java:80-82 | the three header reads consume three lines, or every line when the output has fewer than three |
| `Tasklist.DataLines` | AplicacionProcesos/src/aplicacionprocesos/ProcessManagerApp.java:80-84 | the loop reads the lines after the first three, or none when the output has fewer than three |
| `Tasklist.ParseLine` | AplicacionProcesos/src/aplicacionprocesos/ProcessManagerApp.java:85-101 | the fate of one data line: an accepted record is well formed, an unparsable pid field is reported as a non-empty text without white space, and an excluded row is named `svchost.exe` in some letter case |
| `Tasklist.AcceptedLine` | AplicacionProcesos/src/aplicacionprocesos/ProcessManagerApp.java:85-97 | a line yields a record exactly when it has at least two fields, the second parses as an `int` and the first is not `svchost.exe` in any case; the record is `(field 1, parsed field 2)` and is well formed |
| `Tasklist.RejectedLine` | AplicacionProcesos/src/aplicacionprocesos/ProcessManagerApp.java:88-101 | a line is dropped for too few fields exactly when it has fewer than two; it gives a warning exactly when its second field does not parse, and the warning carries that field |
| `Tasklist.Collect` | AplicacionProcesos/src/aplicacionprocesos/ProcessManagerApp.java:84-103 | the records of a run of data lines: at most one per line (that each is well formed is `LoadedWellFormed`) |
| `Tasklist.CountBadPid` | AplicacionProcesos/src/aplicacionprocesos/ProcessManagerApp.java:98-101 | the warnings of a run of data lines: at most one per line |
| `Tasklist.Loaded` | AplicacionProcesos/src/aplicacionprocesos/ProcessManagerApp.java:77-103 | an output of three lines or fewer loads no record |
| `Tasklist.CollectAppend` | AplicacionProcesos/src/aplicacionprocesos/ProcessManagerApp.java:84-103 | the records of two runs of lines are those of the first followed by those of the second: records keep the order of their lines |
| `Tasklist.CollectStep` | AplicacionProcesos/src/aplicacionprocesos/ProcessManagerApp.java:84-103 | loading one more line of a run appends its record if it has one and adds one warning if its pid is unparsable |
| `Tasklist.RejectedLineSkipped` | AplicacionProcesos/src/aplicacionprocesos/ProcessManagerApp.java:88-101 | a line that yields no record (too few fields, unparsable pid, `svchost.exe`) is passed over and the lines after it are loaded as if it were absent |
| `Tasklist.CollectMembers` | AplicacionProcesos/src/aplicacionprocesos/ProcessManagerApp.java:84-103 | a record comes out of a run of lines exactly when one of the lines is accepted with that record |
| `Tasklist.CollectBound` | AplicacionProcesos/src/aplicacionprocesos/ProcessManagerApp.java:84-103 | records and warnings together are at most the number of lines, since no line gives both |
| `Tasklist.LoadedBound` | AplicacionProcesos/src/aplicacionprocesos/ProcessManagerApp.java:80-103 | records and warnings together are at most the number of lines after the headers |
| `Tasklist.LoadedMembers` | AplicacionProcesos/src/aplicacionprocesos/ProcessManagerApp.java:80-96 | a record is loaded exactly when a line at index 3 or later is accepted with it: the three header lines never yield a record, whatever they hold |
| `Tasklist.HeadersIgnored` | AplicacionProcesos/src/aplicacionprocesos/ProcessManagerApp.java:80-82 | the loaded list depends only on the lines after the three header lines |
| `Tasklist.LoadedWellFormed` | AplicacionProcesos/src/aplicacionprocesos/ProcessManagerApp.java:85-97 | every loaded record has a non-empty name without white space, an `int` pid, and a name that is not `svchost.exe` in any letter case |
| `Tasklist.NoSvchostLoaded` | AplicacionProcesos/src/aplicacionprocesos/ProcessManagerApp.java:94-97 | no loaded name lower-cases to `svchost.exe` |
| `Tasklist.RowFields` | AplicacionProcesos/src/aplicacionprocesos/ProcessManagerApp.java:85-89 | the first two fields of a printed row are its name and its pid text, whatever the other columns hold |
| `Tasklist.RowRoundTrip` | AplicacionProcesos/src/aplicacionprocesos/ProcessManagerApp.java:85-96 | printing a record as a `tasklist` row and parsing the row gives the record back, unless the name is `svchost.exe` |
| `Tasklist.SvchostRowExcluded` | AplicacionProcesos/src/aplicacionprocesos/ProcessManagerApp.java:94-97 | an `svchost.exe` row, in any letter case, parses but is dropped |
| `Tasklist.BadPidRow` | AplicacionProcesos/src/aplicacionprocesos/ProcessManagerApp.java:90-101 | a row whose pid text is not an `int` gives a warning for that text and no record |
| `Tasklist.SampleListing` | AplicacionProcesos/src/aplicacionprocesos/ProcessManagerApp.java:77-103 | three headers, an `svchost.exe` row, a good row and a bad-pid row load as exactly the good row's record, with one warning |
| `Search.Matches` | AplicacionProcesos/src/aplicacionprocesos/ProcessManagerApp.java:118-119 | the per-record test: every record matches the empty term |
| `Search.Selected` | AplicacionProcesos/src/aplicacionprocesos/ProcessManagerApp.java:116-123 | the records that match, taken from the list: never more than it holds and never one it does not hold |
| `Search.Filter` | AplicacionProcesos/src/aplicacionprocesos/ProcessManagerApp.java:112-125 | what the table shows: listed records only, never more than the list holds |
| `Search.MatchingIndicesExact` | AplicacionProcesos/src/aplicacionprocesos/ProcessManagerApp.java:117-121 | the matching positions are exactly the positions of the list whose record matches |
| `Search.SelectedAtMatchingIndices` | AplicacionProcesos/src/aplicacionprocesos/ProcessManagerApp.java:116-123 | the search result is the list's records at exactly the matching positions, taken in increasing order |
| `Search.SelectedIsSubsequence` | AplicacionProcesos/src/aplicacionprocesos/ProcessManagerApp.java:116-123 | the search result is an order-preserving subsequence of the list |
| `Search.SelectedMembers` | AplicacionProcesos/src/aplicacionprocesos/ProcessManagerApp.java:117-121 | a record is in the result exactly when it is in the list and its lower-cased name contains the lower-cased term or its pid text contains the term |
| `Search.EmptyTermSelectsAll` | AplicacionProcesos/src/aplicacionprocesos/ProcessManagerApp.java:113-114 | every record matches the empty term, so the shortcut for it agrees with the general rule |
| `Search.FilterSelects` | AplicacionProcesos/src/aplicacionprocesos/ProcessManagerApp.java:112-125 | what the table shows is the general rule's result for every term, the empty one included |
| `Search.FilterMembers` | AplicacionProcesos/src/aplicacionprocesos/ProcessManagerApp.java:112-125 | a record is shown exactly when it is in the list and matches, and the shown records keep the list's order |
| `Search.FoundByName` | AplicacionProcesos/src/aplicacionprocesos/ProcessManagerApp.java:118 | searching for a record's name, in any letter case, shows that record |
| `Search.FoundByPid` | AplicacionProcesos/src/aplicacionprocesos/ProcessManagerApp.java:119 | searching for a record's pid text shows that record |
| `Search.SelectedIdempotent` | AplicacionProcesos/src/aplicacionprocesos/ProcessManagerApp.java:116-123 | searching the search result again with the same term changes nothing |
| `Search.FilterIdempotent` | AplicacionProcesos/src/aplicacionprocesos/ProcessManagerApp.java:112-125 | the same, for the table's filter including the empty term |
| `Search.PidSearchIsTextual` | AplicacionProcesos/src/aplicacionprocesos/ProcessManagerApp.java:119 | the pid is matched as text: `32` finds pid 4321, and `4322` does not |
| `ProcessManager.ProcessManagerApp.constructor` | AplicacionProcesos/src/aplicacionprocesos/ProcessManagerApp.java:48-58 | start-up gives the loaded list, or the empty list when `tasklist` cannot start |
| `ProcessManager.ProcessManagerApp.LoadProcesses` | AplicacionProcesos/src/aplicacionprocesos/ProcessManagerApp.java:68-109 | the list becomes `Loaded(output)`, independent of the list before (replaced, not merged), and the warnings are counted; a `tasklist` that cannot start leaves the list alone |
| `ProcessManager.ProcessManagerApp.ReadDataLines` | AplicacionProcesos/src/aplicacionprocesos/ProcessManagerApp.java:84-103 | the `while` loop, run on the lines after the headers with the list just cleared, leaves exactly `Collect` of those lines in the list and counts their unparsable pids |
| `ProcessManager.ProcessManagerApp.LoadLine` | AplicacionProcesos/src/aplicacionprocesos/ProcessManagerApp.java:85-101 | one pass of the loop appends the line's record exactly when `ParseLine` accepts it, and reports a warning exactly when the pid field does not parse |
| `ProcessManager.ProcessManagerApp.FilterProcesses` | AplicacionProcesos/src/aplicacionprocesos/ProcessManagerApp.java:112-125 | the loop computes `Filter(processList, term)` and changes no state |
| `ProcessManager.ProcessManagerApp.HandleEliminar` | AplicacionProcesos/src/aplicacionprocesos/ProcessManagerApp.java:163-192 | with a selection and kill exit code 0 the selected record is removed (one copy, order kept); otherwise the list is unchanged |
| `ProcessManager.ProcessManagerApp.HandleReiniciar` | AplicacionProcesos/src/aplicacionprocesos/ProcessManagerApp.java:128-160 | with a selection, kill exit code 0 and a relaunch that starts, the list is reloaded from the new output; with no selection, a non-zero code or a failed relaunch it is unchanged |
| `ProcessManager.ProcessManagerApp.HandleCrear` | AplicacionProcesos/src/aplicacionprocesos/ProcessManagerApp.java:195-220 | a launch that starts reloads the list; a cancelled dialog or a failed launch leaves it unchanged |

## Left out

- AplicacionProcesos/src/aplicacionprocesos/AplicacionProcesos.java: window, FXML and icon set-up only; nothing in it decides anything.
- Running `tasklist`, `taskkill` and the launched programs, and reading their streams: replaced by the output lines, the exit code and the launch flag given as parameters.
- A read error part-way through the `tasklist` output (an `IOException` from `readLine` after some records were added): the model reads the whole output.
- A `taskkill` that fails to start (the `IOException` at lines 134 and 171) and an `InterruptedException` while waiting for it: both leave the list unchanged, as a non-zero exit code does, so a non-zero exit code stands for them.
- The table, its columns, the images, the dialog, the text-field listener and the selection model: the selection and the dialog outcome are parameters; `FilterProcesses` returns the rows the table would show instead of installing them.
- The second removal at line 181 (`processTable.getItems().remove(...)`): it acts on whatever list the table shows. After a search that is the filtered copy, which is not modelled. When the table shows the process list itself, it is a second `remove` on that list; it finds nothing more unless another record equal to the selected one is listed, which depends on `ProcessModel.equals`.
- The text of the messages on the standard output and error streams: only the number of unparsable-pid warnings is returned.
- JavaLib.Remove: records are compared by value. ProcessModel.java is not part of this model; if its `equals` is the inherited object identity, Java removes the selected object itself. The two then differ in two cases. First, the list holds two records with the same name and pid. Second, the selection is stale: after a search, the table shows its own filtered copy (line 123); a launch or restart then refills `processList` with new objects (lines 77 and 96) without giving the table the new list; deleting a row of the old copy finds nothing to remove under identity (line 180), while the model removes the new record with the same name and pid.
- JavaLib.ParseInt: only ASCII digits are digits; `Character.digit` also accepts the other Unicode decimal digits.
- JavaLib.ToLower: ASCII case mapping only; Java's `toLowerCase` maps every Unicode letter and depends on the default locale.
- JavaLib.EqualsIgnoreCase: ASCII case mapping only; Java also folds letters such as U+017F (long s), which upper-cases to `S`, so Java drops a row named with it where the model keeps it.
- Java `char` is a UTF-16 code unit, Dafny `char` a Unicode scalar value: surrogate pairs are not modelled.
