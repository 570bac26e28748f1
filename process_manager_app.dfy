/** The controller behind the process table. It owns the process list, reloads
    it from `tasklist` output, filters it for the search box, and updates it
    after the kill command of the delete and restart buttons.

    The operating system is replaced by parameters: the `tasklist` output is
    `Some(lines)`, or `None` when the command could not be started; the kill
    command is its exit code; a launch is whether it started. */
module ProcessManager {
  import opened Wrappers
  import opened JavaLib
  import opened Tasklist
  import opened Search

  class ProcessManagerApp {
    /** The records behind the table, in `tasklist` order. */
    var processList: seq<ProcessModel>

    /** Every listed record came out of a loaded line. */
    ghost predicate Valid()
      reads this
    {
      forall r :: r in processList ==> WellFormed(r)
    }

    /** `initialize()`: an empty list, then a first load. */
    constructor (output: Option<seq<string>>)
      ensures Valid()
      ensures processList == if output.Some? then Loaded(output.value) else []
    {
      processList := [];
      new;
      var _ := LoadProcesses(output);
    }

    /** `loadProcesses()`: clears the list, skips three header lines, then
        appends one record per accepted line. Returns how many lines had a
        pid that would not parse (each one a warning on the error stream). */
    method LoadProcesses(output: Option<seq<string>>) returns (badPids: nat)
      requires Valid()
      modifies this
      ensures Valid()
      ensures output.None? ==> processList == old(processList) && badPids == 0
      ensures output.Some? ==> processList == Loaded(output.value)
      ensures output.Some? ==> badPids == CountBadPid(DataLines(output.value))
    {
      badPids := 0;
      if output.None? {
        return;
      }
      var lines := output.value;
      processList := [];

      // the three header reads, each of which returns null once the output
      // has ended, consume `SkippedLines(lines)` lines
      badPids := ReadDataLines(lines[SkippedLines(lines)..]);
      LoadedWellFormed(lines);
    }

    /** The `while` loop of `loadProcesses()`, run on the lines after the
        headers with the list just cleared: it appends the records of the
        accepted lines in order and counts the unparsable pids. */
    method ReadDataLines(data: seq<string>) returns (badPids: nat)
      requires processList == []
      modifies this
      ensures processList == Collect(data)
      ensures badPids == CountBadPid(data)
    {
      badPids := 0;
      var i := 0;
      assert data[..i] == [];
      while i < |data|
        invariant i <= |data|
        invariant processList == Collect(data[..i])
        invariant badPids == CountBadPid(data[..i])
      {
        CollectStep(data, i);
        var badPid := LoadLine(data[i]);
        badPids := badPids + if badPid then 1 else 0;
        i := i + 1;
      }
      assert data[..i] == data;
    }

    /** One pass of the loop of `loadProcesses()`: a line with at least two
        fields whose second one parses, and whose first one is not
        `svchost.exe`, appends its record; a second field that does not parse
        is reported instead. */
    method LoadLine(line: string) returns (badPid: bool)
      modifies this
      ensures processList ==
        old(processList) + (if ParseLine(line).Accepted? then [ParseLine(line).record] else [])
      ensures badPid <==> ParseLine(line).BadPid?
    {
      badPid := false;
      ghost var outcome := ParseLine(line);
      var parts := Fields(line);
      if |parts| >= 2 {
        var name := parts[0];
        var pid := ParseInt(parts[1]);
        if pid.None? {
          assert outcome.BadPid?;
          badPid := true;
        } else if !EqualsIgnoreCase(name, EXCLUDED_NAME) {
          assert outcome == Accepted(ProcessModel(name, pid.value));
          processList := processList + [ProcessModel(name, pid.value)];
        } else {
          assert outcome.Excluded?;
        }
      } else {
        assert outcome == TooFewFields;
      }
    }

    /** `filterProcesses(term)`: the records the table shows for a search
        term; the process list itself is left alone. */
    method FilterProcesses(term: string) returns (shown: seq<ProcessModel>)
      ensures shown == Filter(processList, term)
    {
      if term == [] {
        return processList;
      }
      var filtered := [];
      for i := 0 to |processList|
        invariant filtered == Selected(processList[..i], term)
      {
        var process := processList[i];
        assert processList[..i + 1][..i] == processList[..i];
        if Contains(ToLower(process.name), ToLower(term)) || Contains(IntToString(process.pid), term) {
          filtered := filtered + [process];
        }
      }
      assert processList[..|processList|] == processList;
      shown := filtered;
    }

    /** `handleEliminar()`: with a record selected and a kill command that
        exits with 0, that record leaves the list; otherwise the list stays. */
    method HandleEliminar(selected: Option<ProcessModel>, killExit: int)
      requires Valid()
      modifies this
      ensures Valid()
      ensures processList ==
        if selected.Some? && killExit == 0 then Remove(old(processList), selected.value)
        else old(processList)
    {
      if selected.Some? {
        if killExit == 0 {
          processList := Remove(processList, selected.value);
        }
      }
    }

    /** `handleReiniciar()`: with a record selected, a kill command that exits
        with 0 and a relaunch that starts, the list is reloaded from the new
        `tasklist` output; in every other case it stays as it was (a launch
        that fails to start throws before the reload). */
    method HandleReiniciar(selected: Option<ProcessModel>, killExit: int, relaunched: bool,
                           output: Option<seq<string>>)
      requires Valid()
      modifies this
      ensures Valid()
      ensures processList ==
        if selected.Some? && killExit == 0 && relaunched && output.Some? then Loaded(output.value)
        else old(processList)
    {
      if selected.Some? {
        if killExit == 0 {
          if relaunched {
            var _ := LoadProcesses(output);
          }
        }
      }
    }

    /** `handleCrear()`: when a name was entered and its launch started, the
        list is reloaded; otherwise it stays as it was. */
    method HandleCrear(launched: bool, output: Option<seq<string>>)
      requires Valid()
      modifies this
      ensures Valid()
      ensures processList ==
        if launched && output.Some? then Loaded(output.value) else old(processList)
    {
      if launched {
        var _ := LoadProcesses(output);
      }
    }
  }
}
