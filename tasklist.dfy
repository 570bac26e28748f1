/** How the text printed by `tasklist` becomes process records: the first
    three lines are headers, and every later line is trimmed, split on runs of
    white space, and turned into a `(name, pid)` record when its second field
    is a Java `int`, unless the name is `svchost.exe` in any letter case. */
module Tasklist {
  import opened Wrappers
  import opened JavaLib

  /** One row of the process table. */
  datatype ProcessModel = ProcessModel(name: string, pid: int)

  /** Lines read and thrown away before the data rows. */
  const HEADER_LINES: nat := 3

  /** The housekeeping process that is never listed. */
  const EXCLUDED_NAME: string := "svchost.exe"

  /** A line of nothing but chars at or below U+0020, which `trim` empties. */
  predicate Blank(line: string) {
    forall k :: 0 <= k < |line| ==> IsTrimmable(line[k])
  }

  /** `line.trim().split("\\s+")`: at least one field, and a blank line
      gives exactly one, the empty one (`FieldsPieces` says what the fields
      hold). */
  function Fields(line: string): (r: seq<string>)
    ensures |r| >= 1
    ensures Trim(line) == [] ==> r == [[]]
  {
    SplitOnSpaces(Trim(line))
  }

  /** No char of the trimmed line other than white space is lost or
      invented; a line of nothing but chars at or below U+0020 gives one
      empty field, any other line only non-empty fields without white
      space. */
  lemma FieldsPieces(line: string)
    ensures Concat(Fields(line)) == RemoveSpaces(Trim(line))
    ensures Blank(line) ==> Fields(line) == [[]]
    ensures !Blank(line) ==> forall j :: 0 <= j < |Fields(line)| ==> Fields(line)[j] != [] && NoSpace(Fields(line)[j])
  {
    var t := Trim(line);
    if t == [] {
      assert Concat([[]]) == [] + Concat([]);
    } else {
      TokensKeepEveryNonSpaceChar(t);
    }
  }

  /** What the loop body does with one data line. */
  datatype LineOutcome =
    | TooFewFields                          // fewer than two fields: ignored
    | BadPid(pidField: string)              // NumberFormatException: a warning, then the next line
    | Excluded(excluded: ProcessModel)      // an svchost.exe row
    | Accepted(record: ProcessModel)        // appended to the list

  /** The fate of one data line, as the loop body decides it: an accepted
      record is well formed, a rejected pid field is a non-empty, space-free
      text (that `parseInt` refuses it is `RejectedLine`), and an excluded
      row is named `svchost.exe` in some letter case. */
  function ParseLine(line: string): (o: LineOutcome)
    ensures o.Accepted? ==> WellFormed(o.record)
    ensures o.BadPid? ==> o.pidField != [] && NoSpace(o.pidField)
    ensures o.Excluded? ==> EqualsIgnoreCase(o.excluded.name, EXCLUDED_NAME)
  {
    var parts := Fields(line);
    if |parts| < 2 then TooFewFields
    else
      match ParseInt(parts[1])
      case None => BadPid(parts[1])
      case Some(pid) =>
        var rec := ProcessModel(parts[0], pid);
        if EqualsIgnoreCase(parts[0], EXCLUDED_NAME) then Excluded(rec) else Accepted(rec)
  }

  /** The records a run of data lines contributes, in line order: at most
      one per line. */
  function Collect(lines: seq<string>): (r: seq<ProcessModel>)
    ensures |r| <= |lines|
  {
    if lines == [] then []
    else
      var last := ParseLine(lines[|lines| - 1]);
      Collect(lines[..|lines| - 1]) + (if last.Accepted? then [last.record] else [])
  }

  /** How many data lines hit a `NumberFormatException`: at most one per line. */
  function CountBadPid(lines: seq<string>): (n: nat)
    ensures n <= |lines|
  {
    if lines == [] then 0
    else CountBadPid(lines[..|lines| - 1]) + (if ParseLine(lines[|lines| - 1]).BadPid? then 1 else 0)
  }

  /** Lines consumed by the three header reads: each read takes a line
      while there is one, so all three take one unless the output ends
      first. */
  function SkippedLines(lines: seq<string>): (n: nat)
    ensures n <= |lines| && n <= HEADER_LINES
    ensures n < HEADER_LINES ==> n == |lines|
  {
    if |lines| < HEADER_LINES then |lines| else HEADER_LINES
  }

  /** The lines the `while` loop reads: those after the three headers, or
      none when the output has no more than the headers. */
  function DataLines(lines: seq<string>): (r: seq<string>)
    ensures |lines| >= HEADER_LINES ==> r == lines[HEADER_LINES..]
    ensures |lines| < HEADER_LINES ==> r == []
  {
    lines[SkippedLines(lines)..]
  }

  /** The process list after loading the whole `tasklist` output; an output
      of three lines or fewer gives no record. */
  function Loaded(lines: seq<string>): (r: seq<ProcessModel>)
    ensures |lines| <= HEADER_LINES ==> r == []
  {
    Collect(DataLines(lines))
  }

  /** What every listed record satisfies. */
  predicate WellFormed(r: ProcessModel) {
    && r.name != []
    && NoSpace(r.name)
    && InIntRange(r.pid)
    && !EqualsIgnoreCase(r.name, EXCLUDED_NAME)
  }

  // ---------------------------------------------------------------------

  /** The acceptance test of the loop body, both ways, in the order the
      loop applies it: at least two fields, a second field that parses as an
      `int`, and a first field that is not `svchost.exe`; the record is then
      the first field with that `int`. Both clauses are `ParseLine` read
      back: the first is its accepting branch as a condition, the second
      its own guarantee that an accepted record is well formed. */
  lemma AcceptedLine(line: string, r: ProcessModel)
    ensures ParseLine(line) == Accepted(r) <==>
      && |Fields(line)| >= 2
      && r == ProcessModel(Fields(line)[0], r.pid)
      && ParseInt(Fields(line)[1]) == Some(r.pid)
      && !EqualsIgnoreCase(r.name, EXCLUDED_NAME)
    ensures ParseLine(line) == Accepted(r) ==> WellFormed(r)
  {
  }

  /** The other outcomes: a line is dropped for too few fields exactly when
      it has fewer than two; a pid field that makes `parseInt` throw is
      reported as it was read, non-empty and free of white space; and an
      excluded line is an `svchost.exe` row with an `int` pid. */
  lemma RejectedLine(line: string)
    ensures ParseLine(line) == TooFewFields <==> |Fields(line)| < 2
    ensures ParseLine(line).BadPid? <==> |Fields(line)| >= 2 && ParseInt(Fields(line)[1]) == None
    ensures ParseLine(line).BadPid? ==>
      ParseLine(line).pidField == Fields(line)[1] && ParseLine(line).pidField != [] && NoSpace(ParseLine(line).pidField)
    ensures ParseLine(line).Excluded? ==>
      EqualsIgnoreCase(ParseLine(line).excluded.name, EXCLUDED_NAME) && InIntRange(ParseLine(line).excluded.pid)
  {
  }

  /** Loading is line by line: the records of two runs of lines are those of
      the first run followed by those of the second. */
  lemma {:induction false} CollectAppend(a: seq<string>, b: seq<string>)
    ensures Collect(a + b) == Collect(a) + Collect(b)
    decreases |b|
  {
    if b == [] {
      assert a + b == a;
    } else {
      var init := b[..|b| - 1];
      var line := b[|b| - 1];
      assert b == init + [line];
      assert a + b == (a + init) + [line];
      CollectAppend(a, init);
      CollectSnoc(a + init, line);
      CollectSnoc(init, line);
    }
  }

  /** One more line at the end adds that line's record, if any. */
  lemma CollectSnoc(lines: seq<string>, line: string)
    ensures Collect(lines + [line]) ==
      Collect(lines) + (if ParseLine(line).Accepted? then [ParseLine(line).record] else [])
  {
    var run := lines + [line];
    assert run[..|run| - 1] == lines;
    assert run[|run| - 1] == line;
  }

  lemma CollectSingle(line: string)
    ensures Collect([line]) == if ParseLine(line).Accepted? then [ParseLine(line).record] else []
  {
    CollectSnoc([], line);
    assert [] + [line] == [line];
  }

  /** Loading one more line appends that line's record, if any, and counts
      its warning, if any. */
  lemma CollectStep(lines: seq<string>, i: nat)
    requires i < |lines|
    ensures Collect(lines[..i + 1]) ==
      Collect(lines[..i]) + (if ParseLine(lines[i]).Accepted? then [ParseLine(lines[i]).record] else [])
    ensures CountBadPid(lines[..i + 1]) ==
      CountBadPid(lines[..i]) + (if ParseLine(lines[i]).BadPid? then 1 else 0)
  {
    var run := lines[..i + 1];
    assert run[..|run| - 1] == lines[..i];
    assert run[|run| - 1] == lines[i];
  }

  /** A line gives a record or a warning, never both, so records and
      warnings together are at most the lines. */
  lemma {:induction false} CollectBound(lines: seq<string>)
    ensures |Collect(lines)| + CountBadPid(lines) <= |lines|
    decreases |lines|
  {
    if lines != [] {
      CollectBound(lines[..|lines| - 1]);
    }
  }

  /** Loading gives at most one record or warning per line after the headers. */
  lemma LoadedBound(lines: seq<string>)
    ensures |Loaded(lines)| + CountBadPid(DataLines(lines)) <= |lines| - SkippedLines(lines)
  {
    CollectBound(DataLines(lines));
  }

  /** A line that yields no record, an unparsable pid among them, is passed
      over and the lines after it are still loaded. */
  lemma RejectedLineSkipped(before: seq<string>, line: string, after: seq<string>)
    requires !ParseLine(line).Accepted?
    ensures Collect(before + [line] + after) == Collect(before) + Collect(after)
  {
    CollectAppend(before + [line], after);
    CollectAppend(before, [line]);
    CollectSingle(line);
    assert Collect([line]) == [];
    assert Collect(before + [line]) == Collect(before);
  }

  /** A record comes out of a run of lines exactly when one of them is
      accepted with that record. */
  lemma {:induction false} CollectMembers(lines: seq<string>, r: ProcessModel)
    ensures r in Collect(lines) <==> exists i :: 0 <= i < |lines| && ParseLine(lines[i]) == Accepted(r)
    decreases |lines|
  {
    if lines != [] {
      var init := lines[..|lines| - 1];
      assert lines == init + [lines[|lines| - 1]];
      CollectMembers(init, r);
      CollectSnoc(init, lines[|lines| - 1]);
      if exists i :: 0 <= i < |lines| && ParseLine(lines[i]) == Accepted(r) {
        var i :| 0 <= i < |lines| && ParseLine(lines[i]) == Accepted(r);
        if i < |lines| - 1 {
          assert init[i] == lines[i];
        }
      }
      if exists i :: 0 <= i < |init| && ParseLine(init[i]) == Accepted(r) {
        var i :| 0 <= i < |init| && ParseLine(init[i]) == Accepted(r);
        assert lines[i] == init[i];
      }
    }
  }

  /** A record is loaded exactly when some line after the three header lines
      is accepted with that record; in particular the header lines never
      contribute, whatever they hold. */
  lemma LoadedMembers(lines: seq<string>, r: ProcessModel)
    ensures r in Loaded(lines) <==>
      exists i :: HEADER_LINES <= i < |lines| && ParseLine(lines[i]) == Accepted(r)
  {
    var data := DataLines(lines);
    CollectMembers(data, r);
    if |lines| < HEADER_LINES {
      assert data == [];
    } else {
      assert forall j :: 0 <= j < |data| ==> data[j] == lines[j + HEADER_LINES];
      if exists i :: HEADER_LINES <= i < |lines| && ParseLine(lines[i]) == Accepted(r) {
        var i :| HEADER_LINES <= i < |lines| && ParseLine(lines[i]) == Accepted(r);
        assert ParseLine(data[i - HEADER_LINES]) == Accepted(r);
      }
    }
  }

  /** The loaded list is determined by the lines after the headers alone. */
  lemma HeadersIgnored(header: seq<string>, rest: seq<string>)
    requires |header| == HEADER_LINES
    ensures Loaded(header + rest) == Collect(rest)
  {
    assert DataLines(header + rest) == rest;
  }

  /** Every loaded record is well formed: a non-empty name with no white
      space, an `int` pid, and never `svchost.exe` in any letter case. */
  lemma LoadedWellFormed(lines: seq<string>)
    ensures forall r :: r in Loaded(lines) ==> WellFormed(r)
  {
    forall r | r in Loaded(lines)
      ensures WellFormed(r)
    {
      LoadedMembers(lines, r);
      var i :| HEADER_LINES <= i < |lines| && ParseLine(lines[i]) == Accepted(r);
    }
  }

  /** The exclusion, stated with `toLowerCase`: no loaded name lower-cases to
      `svchost.exe`. */
  lemma NoSvchostLoaded(lines: seq<string>)
    ensures forall r :: r in Loaded(lines) ==> ToLower(r.name) != ToLower(EXCLUDED_NAME)
  {
    LoadedWellFormed(lines);
    forall r | r in Loaded(lines)
      ensures ToLower(r.name) != ToLower(EXCLUDED_NAME)
    {
      EqualsIgnoreCaseIffSameLower(r.name, EXCLUDED_NAME);
    }
  }

  // ---------------------------------------------------------------------
  // Rows as tasklist prints them

  /** The padding `tasklist` puts between columns: one or more white-space
      chars. */
  predicate Gap(g: string) {
    g != [] && forall k :: 0 <= k < |g| ==> IsSpace(g[k])
  }

  /** A data row: the image name, a gap, the pid field, a gap, and the
      remaining columns (session name, session number, memory usage). */
  function Row(name: string, gap1: string, pidField: string, gap2: string, columns: string): string {
    name + gap1 + pidField + gap2 + columns
  }

  /** The first two fields of a row are its name and its pid field, however
      wide the gaps and whatever the remaining columns hold. */
  lemma RowFields(name: string, gap1: string, pidField: string, gap2: string, columns: string)
    requires Visible(name) && Visible(pidField) && Gap(gap1) && Gap(gap2)
    ensures |Fields(Row(name, gap1, pidField, gap2, columns))| >= 2
    ensures Fields(Row(name, gap1, pidField, gap2, columns))[0] == name
    ensures Fields(Row(name, gap1, pidField, gap2, columns))[1] == pidField
  {
    var t := Trim(Row(name, gap1, pidField, gap2, columns));
    TrimRow(name, gap1, pidField, gap2, columns);
    RowTokens(t, name, gap1, pidField);
  }

  /** The tokens of a trimmed row start with its name and its pid field. */
  lemma RowTokens(t: string, name: string, gap: string, pidField: string)
    requires Visible(name) && Visible(pidField) && Gap(gap)
    requires |t| >= |name| + |gap| + |pidField|
    requires t[..|name| + |gap| + |pidField|] == name + gap + pidField
    requires |t| > |name| + |gap| + |pidField| ==> IsSpace(t[|name| + |gap| + |pidField|])
    ensures |Tokens(t)| >= 2 && Tokens(t)[0] == name && Tokens(t)[1] == pidField
  {
    var n := |name|;
    var p := n + |gap| + |pidField|;
    var w := t[..p];
    assert w[..n] == name && w[n..n + |gap|] == gap && w[n + |gap|..] == pidField;
    assert t[..n] == w[..n];
    assert t[n] == w[n] == gap[0];
    TokensStartingWith(t, name);
    var u := t[n..];
    assert u[..|gap|] == w[n..n + |gap|];
    assert u[|gap|..|gap| + |pidField|] == w[n + |gap|..];
    assert |u| > |gap| + |pidField| ==> u[|gap| + |pidField|] == t[p];
    SecondToken(u, gap, pidField);
  }

  /** After a gap, the next token is the word that follows it. */
  lemma SecondToken(u: string, gap: string, word: string)
    requires Visible(word) && Gap(gap)
    requires |u| >= |gap| + |word| && u[..|gap|] == gap && u[|gap|..|gap| + |word|] == word
    requires |u| > |gap| + |word| ==> IsSpace(u[|gap| + |word|])
    ensures |Tokens(u)| >= 1 && Tokens(u)[0] == word
  {
    assert forall k :: 0 <= k < |gap| ==> u[k] == gap[k];
    SkipSpaces(u, |gap|);
    var v := u[|gap|..];
    assert v[..|word|] == word;
    TokensStartingWith(v, word);
  }

  /** A run of white space in front splits into nothing. */
  lemma {:induction false} SkipSpaces(u: string, i: nat)
    requires i <= |u|
    requires forall k :: 0 <= k < i ==> IsSpace(u[k])
    ensures Tokens(u) == Tokens(u[i..])
    decreases i
  {
    if i > 0 {
      assert Tokens(u) == Tokens(u[1..]);
      SkipSpaces(u[1..], i - 1);
      assert u[1..][i - 1..] == u[i..];
    }
  }

  /** Trimming a row keeps its name, the gap after it and its pid field, and
      the char after them, if any, is white space. */
  lemma TrimRow(name: string, gap1: string, pidField: string, gap2: string, columns: string)
    requires Visible(name) && Visible(pidField) && Gap(gap1) && Gap(gap2)
    ensures var t := Trim(Row(name, gap1, pidField, gap2, columns));
      var p := |name| + |gap1| + |pidField|;
      |t| >= p && t[..p] == name + gap1 + pidField && (|t| > p ==> IsSpace(t[p]))
  {
    var line := Row(name, gap1, pidField, gap2, columns);
    var p := |name| + |gap1| + |pidField|;
    assert line[..p] == name + gap1 + pidField;
    assert line[0] == name[0];
    assert LeadingTrimmable(line) == 0;
    var t := Trim(line);
    assert line[p - 1] == pidField[|pidField| - 1];
    assert |t| >= p;
    assert t[..p] == line[..p];
    assert p < |line| && line[p] == gap2[0];
    assert |t| > p ==> t[p] == line[p];
  }

  /** Printing a record as a row and loading that row gives the record back,
      unless it is an `svchost.exe` row. */
  lemma RowRoundTrip(r: ProcessModel, gap1: string, gap2: string, columns: string)
    requires Visible(r.name) && InIntRange(r.pid) && Gap(gap1) && Gap(gap2)
    requires !EqualsIgnoreCase(r.name, EXCLUDED_NAME)
    ensures ParseLine(Row(r.name, gap1, IntToString(r.pid), gap2, columns)) == Accepted(r)
  {
    RowFields(r.name, gap1, IntToString(r.pid), gap2, columns);
    ParseIntOfIntToString(r.pid);
  }

  /** An `svchost.exe` row, in any letter case, is parsed and then dropped. */
  lemma SvchostRowExcluded(name: string, pid: int, gap1: string, gap2: string, columns: string)
    requires Visible(name) && InIntRange(pid) && Gap(gap1) && Gap(gap2)
    requires EqualsIgnoreCase(name, EXCLUDED_NAME)
    ensures ParseLine(Row(name, gap1, IntToString(pid), gap2, columns)) == Excluded(ProcessModel(name, pid))
  {
    RowFields(name, gap1, IntToString(pid), gap2, columns);
    ParseIntOfIntToString(pid);
  }

  /** A row whose pid field is not an `int` gives a warning for that field. */
  lemma BadPidRow(name: string, gap1: string, pidField: string, gap2: string, columns: string)
    requires Visible(name) && Visible(pidField) && Gap(gap1) && Gap(gap2)
    requires ParseInt(pidField) == None
    ensures ParseLine(Row(name, gap1, pidField, gap2, columns)) == BadPid(pidField)
  {
    RowFields(name, gap1, pidField, gap2, columns);
  }

  /** A listing with three header lines, then an `svchost.exe` row, a good
      row and a row with an unparsable pid: exactly the good row's record is
      loaded, with one warning. */
  lemma SampleListing(header: seq<string>, excluded: ProcessModel, good: ProcessModel,
                      badName: string, badPid: string, gap1: string, gap2: string, columns: string)
    requires |header| == HEADER_LINES && Gap(gap1) && Gap(gap2)
    requires Visible(excluded.name) && InIntRange(excluded.pid)
    requires EqualsIgnoreCase(excluded.name, EXCLUDED_NAME)
    requires Visible(good.name) && InIntRange(good.pid)
    requires !EqualsIgnoreCase(good.name, EXCLUDED_NAME)
    requires Visible(badName) && Visible(badPid) && ParseInt(badPid) == None
    ensures var lines := header + [Row(excluded.name, gap1, IntToString(excluded.pid), gap2, columns),
                                   Row(good.name, gap1, IntToString(good.pid), gap2, columns),
                                   Row(badName, gap1, badPid, gap2, columns)];
      Loaded(lines) == [good] && CountBadPid(DataLines(lines)) == 1
  {
    var rows := [Row(excluded.name, gap1, IntToString(excluded.pid), gap2, columns),
                 Row(good.name, gap1, IntToString(good.pid), gap2, columns),
                 Row(badName, gap1, badPid, gap2, columns)];
    SvchostRowExcluded(excluded.name, excluded.pid, gap1, gap2, columns);
    RowRoundTrip(good, gap1, gap2, columns);
    BadPidRow(badName, gap1, badPid, gap2, columns);
    assert DataLines(header + rows) == rows;
    ThreeRows(rows, good);
  }

  lemma ThreeRows(rows: seq<string>, good: ProcessModel)
    requires |rows| == 3
    requires ParseLine(rows[0]).Excluded?
    requires ParseLine(rows[1]) == Accepted(good)
    requires ParseLine(rows[2]).BadPid?
    ensures Collect(rows) == [good] && CountBadPid(rows) == 1
  {
    ThreeRowsRecords(rows, good);
    ThreeRowsWarnings(rows);
  }

  lemma ThreeRowsRecords(rows: seq<string>, good: ProcessModel)
    requires |rows| == 3
    requires !ParseLine(rows[0]).Accepted?
    requires ParseLine(rows[1]) == Accepted(good)
    requires !ParseLine(rows[2]).Accepted?
    ensures Collect(rows) == [good]
  {
    var first := rows[..1];
    var two := rows[..2];
    assert first[..0] == [] && first[0] == rows[0];
    assert Collect(first) == [];
    assert two[..1] == first && two[1] == rows[1];
    assert Collect(two) == [good];
    assert rows[..2] == two;
  }

  lemma ThreeRowsWarnings(rows: seq<string>)
    requires |rows| == 3
    requires !ParseLine(rows[0]).BadPid?
    requires !ParseLine(rows[1]).BadPid?
    requires ParseLine(rows[2]).BadPid?
    ensures CountBadPid(rows) == 1
  {
    var first := rows[..1];
    var two := rows[..2];
    assert first[..0] == [] && first[0] == rows[0];
    assert CountBadPid(first) == 0;
    assert two[..1] == first && two[1] == rows[1];
    assert CountBadPid(two) == 0;
    assert rows[..2] == two;
  }
}
