/** Reading a Synology Storage Analyzer duplicate report
    (backend/report_parser.py): the duplicate groups of the report's SQLite
    database, else of its tab-separated CSV export, each group then classified
    into a backup copy and a sorted copy. The SQLite answers come from the NAS
    oracle; the CSV is taken from its header and rows onwards. */
module ReportParser {
  import opened Strings
  import opened Seqs
  import opened Shell
  import opened PathUtils
  import opened DuplicateScanner

  /** A group of files the report says are identical. */
  datatype RawGroup = RawGroup(groupId: string, paths: seq<string>)

  /** A group with a backup copy and a sorted copy picked out. */
  datatype ClassifiedGroup = ClassifiedGroup(groupId: string, backupPath: string, sortedPath: string, allPaths: seq<string>)

  // ---------------------------------------------------------------------------
  // First and last matches

  /** `x` is the first element of `xs` that satisfies `p`. */
  ghost predicate IsFirst<T>(xs: seq<T>, p: T -> bool, x: T)
  {
    exists i :: 0 <= i < |xs| && xs[i] == x && p(x) && forall j :: 0 <= j < i ==> !p(xs[j])
  }

  /** `next((x for x in xs if p(x)), None)`. */
  function FirstWith<T>(xs: seq<T>, p: T -> bool): Option<T>
  {
    if xs == [] then None
    else if p(xs[0]) then Some(xs[0])
    else FirstWith(xs[1..], p)
  }

  /** The result is the first element satisfying `p`, and there is none
      exactly when no element does. */
  lemma {:induction false} FirstWithSpec<T>(xs: seq<T>, p: T -> bool)
    ensures FirstWith(xs, p).None? <==> forall i :: 0 <= i < |xs| ==> !p(xs[i])
    ensures FirstWith(xs, p).Some? ==> IsFirst(xs, p, FirstWith(xs, p).value)
  {
    if xs != [] {
      FirstWithSpec(xs[1..], p);
      var r := FirstWith(xs, p);
      if p(xs[0]) {
        assert xs[0] == r.value;
      } else if r.Some? {
        var i :| 0 <= i < |xs[1..]| && xs[1..][i] == r.value && p(r.value) && forall j :: 0 <= j < i ==> !p(xs[1..][j]);
        assert xs[i + 1] == r.value;
        assert forall j :: 1 <= j < i + 1 ==> xs[j] == xs[1..][j - 1];
      } else {
        assert forall i :: 1 <= i < |xs| ==> xs[i] == xs[1..][i - 1];
      }
    }
  }

  /** One more element at the end only matters when none matched before. */
  lemma {:induction false} FirstWithSnoc<T>(xs: seq<T>, x: T, p: T -> bool)
    ensures FirstWith(xs + [x], p) ==
      if FirstWith(xs, p).Some? then FirstWith(xs, p) else if p(x) then Some(x) else None
  {
    if xs == [] {
      assert xs + [x] == [x];
    } else {
      assert (xs + [x])[0] == xs[0];
      assert (xs + [x])[1..] == xs[1..] + [x];
      FirstWithSnoc(xs[1..], x, p);
    }
  }

  /** The position of the last `x` in `xs`, -1 if none. */
  function LastPosition<T(==)>(xs: seq<T>, x: T): (r: int)
    ensures -1 <= r < |xs|
  {
    if xs == [] then -1
    else if xs[|xs| - 1] == x then |xs| - 1
    else LastPosition(xs[..|xs| - 1], x)
  }

  lemma {:induction false} LastPositionSpec<T>(xs: seq<T>, x: T)
    ensures var r := LastPosition(xs, x);
            (r >= 0 ==> xs[r] == x) && (forall j :: r < j < |xs| ==> xs[j] != x)
  {
    if xs != [] && xs[|xs| - 1] != x {
      LastPositionSpec(xs[..|xs| - 1], x);
    }
  }

  // ---------------------------------------------------------------------------
  // Command output

  predicate NonEmpty(s: string)
  {
    s != ""
  }

  /** `[x.strip() for x in output.strip().split('\n') if x.strip()]`. */
  function NonBlankLines(output: string): seq<string>
  {
    Filter(StripAll(Lines(output)), NonEmpty)
  }

  predicate IsStripped(s: string)
  {
    s != "" && Strip(s) == s
  }

  /** The lines kept are non-blank and already stripped. */
  lemma {:induction false} NonBlankLinesShape(output: string)
    ensures forall k :: 0 <= k < |NonBlankLines(output)| ==> IsStripped(NonBlankLines(output)[k])
  {
    var lines := Lines(output);
    forall k | 0 <= k < |StripAll(lines)|
      ensures Strip(StripAll(lines)[k]) == StripAll(lines)[k]
    {
      StripIdempotent(lines[k]);
    }
    FilterAll(StripAll(lines), NonEmpty);
    FilterPreserves(StripAll(lines), NonEmpty, s => Strip(s) == s);
  }

  // ---------------------------------------------------------------------------
  // The SQLite database

  /** A table worth reading: its lower-cased name contains "dup" or "duplicate". */
  predicate IsDupTable(name: string)
  {
    Contains(Lower(name), "dup") || Contains(Lower(name), "duplicate")
  }

  /** The second test adds nothing: only names containing "dup" are read. */
  lemma {:induction false} IsDupTableIff(name: string)
    ensures IsDupTable(name) <==> Contains(Lower(name), "dup")
  {
    if Contains(Lower(name), "duplicate") {
      ContainsPrefixOf(Lower(name), "duplicate", "dup");
    }
  }

  /** The column names in `PRAGMA table_info` output: the second `|` field of
      each non-empty line that has more than one field. */
  function ColumnsOf(lines: seq<string>): seq<string>
  {
    if lines == [] then []
    else
      var columns := ColumnsOf(lines[..|lines| - 1]);
      var line := lines[|lines| - 1];
      var parts := Split(line, '|');
      if line != "" && |parts| > 1 then columns + [parts[1]] else columns
  }

  /** A `PRAGMA table_info` row `cid|name|type|...` names the column `name`. */
  lemma {:induction false} ColumnOfPragmaRow(lines: seq<string>, cid: string, name: string, rest: seq<string>)
    requires '|' !in cid && '|' !in name
    requires forall k :: 0 <= k < |rest| ==> '|' !in rest[k]
    ensures ColumnsOf(lines + [JoinWith([cid, name] + rest, '|')]) == ColumnsOf(lines) + [name]
  {
    var parts := [cid, name] + rest;
    var line := JoinWith(parts, '|');
    forall k | 0 <= k < |parts|
      ensures '|' !in parts[k]
    {
      if k >= 2 {
        assert parts[k] == rest[k - 2];
      }
    }
    JoinSplit(parts, '|');
    assert line != "" by {
      JoinWithEnds(parts, '|');
      assert |line| > |cid|;
    }
    assert (lines + [line])[..|lines|] == lines;
  }

  /** The loop that collects the column names. */
  method ParseColumns(lines: seq<string>) returns (columns: seq<string>)
    ensures columns == ColumnsOf(lines)
  {
    columns := [];
    var i := 0;
    while i < |lines|
      invariant 0 <= i <= |lines|
      invariant columns == ColumnsOf(lines[..i])
    {
      var line := lines[i];
      assert lines[..i + 1][..i] == lines[..i];
      if line != "" {
        var parts := Split(line, '|');
        if |parts| > 1 {
          columns := columns + [parts[1]];
        }
      }
      i := i + 1;
    }
    assert lines[..i] == lines;
  }

  /** The lower-cased name contains `word`. */
  function Mentions(word: string): string -> bool
  {
    c => Contains(Lower(c), word)
  }

  /** The column holding the file paths. */
  function PathColumn(columns: seq<string>): Option<string>
  {
    var byPath := FirstWith(columns, Mentions("path"));
    if byPath.Some? then byPath
    else
      var byFile := FirstWith(columns, Mentions("file"));
      if byFile.Some? then byFile
      else if columns != [] then Some(columns[0])
      else None
  }

  /** The path column is the first column mentioning "path", else the first
      mentioning "file", else the first column, and missing only when there
      are no columns. */
  lemma {:induction false} PathColumnChoice(columns: seq<string>)
    ensures PathColumn(columns).None? <==> columns == []
    ensures (exists i :: 0 <= i < |columns| && Mentions("path")(columns[i])) ==>
      IsFirst(columns, Mentions("path"), PathColumn(columns).value)
    ensures ((forall i :: 0 <= i < |columns| ==> !Mentions("path")(columns[i])) &&
             (exists i :: 0 <= i < |columns| && Mentions("file")(columns[i])))
            ==> IsFirst(columns, Mentions("file"), PathColumn(columns).value)
    ensures ((forall i :: 0 <= i < |columns| ==> !Mentions("path")(columns[i]) && !Mentions("file")(columns[i])) &&
             columns != [])
            ==> PathColumn(columns) == Some(columns[0])
  {
    FirstWithSpec(columns, Mentions("path"));
    FirstWithSpec(columns, Mentions("file"));
  }

  /** The groups of one table whose group column is `groupColumn`, one query
      per distinct group id. */
  function GroupsById(nas: Nas, reportPath: string, table: string, pathColumn: string, groupColumn: string,
                      groupIds: seq<string>): seq<RawGroup>
  {
    if groupIds == [] then []
    else
      var groupId := groupIds[|groupIds| - 1];
      var res := nas.run(Sqlite(reportPath, SelectWhere(pathColumn, table, groupColumn, groupId)));
      var paths := NonBlankLines(res.output);
      GroupsById(nas, reportPath, table, pathColumn, groupColumn, groupIds[..|groupIds| - 1])
        + (if res.success && res.output != "" && |paths| >= 2 then [RawGroup(groupId, paths)] else [])
  }

  /** The groups of a table with a group column: one per distinct group id. */
  function GroupedTable(nas: Nas, reportPath: string, table: string, pathColumn: string, groupColumn: string): seq<RawGroup>
  {
    var res := nas.run(Sqlite(reportPath, DistinctValues(groupColumn, table)));
    if res.success && res.output != "" then
      GroupsById(nas, reportPath, table, pathColumn, groupColumn, NonBlankLines(res.output))
    else []
  }

  /** The group of a table without a group column: all its paths, named "default". */
  function UngroupedTable(nas: Nas, reportPath: string, table: string, pathColumn: string): seq<RawGroup>
  {
    var res := nas.run(Sqlite(reportPath, SelectAll(pathColumn, table)));
    var allPaths := NonBlankLines(res.output);
    if res.success && res.output != "" && |allPaths| >= 2 then [RawGroup("default", allPaths)] else []
  }

  /** The groups of a table with the given columns. */
  function ColumnGroups(nas: Nas, reportPath: string, table: string, columns: seq<string>): seq<RawGroup>
  {
    var pathColumn := PathColumn(columns);
    if pathColumn.None? || pathColumn.value == "" then []
    else
      var groupColumn := FirstWith(columns, Mentions("group"));
      if groupColumn.Some? then GroupedTable(nas, reportPath, table, pathColumn.value, groupColumn.value)
      else UngroupedTable(nas, reportPath, table, pathColumn.value)
  }

  /** The groups of one table. */
  function TableGroups(nas: Nas, reportPath: string, table: string): seq<RawGroup>
  {
    var info := nas.run(Sqlite(reportPath, TableInfo(table)));
    if !info.success || info.output == "" then []
    else ColumnGroups(nas, reportPath, table, ColumnsOf(Lines(info.output)))
  }

  /** The groups of the duplicate tables among `tables`, table by table. */
  function GroupsOfTables(nas: Nas, reportPath: string, tables: seq<string>): seq<RawGroup>
  {
    if tables == [] then []
    else
      var table := tables[|tables| - 1];
      GroupsOfTables(nas, reportPath, tables[..|tables| - 1])
        + (if IsDupTable(table) then TableGroups(nas, reportPath, table) else [])
  }

  /** What `parse_dup_db(report_path)` returns. */
  function DbGroups(nas: Nas, reportPath: string): seq<RawGroup>
  {
    var probe := nas.run(Sqlite(reportPath, ListTables));
    if !probe.success || Contains(probe.output, "not a database") || Contains(probe.error, "not a database") then []
    else
      var names := nas.run(Sqlite(reportPath, TableNames));
      if !names.success || names.output == "" then []
      else GroupsOfTables(nas, reportPath, NonBlankLines(names.output))
  }

  /** A group as the report parser hands it on: at least two paths, each
      non-blank and stripped. */
  ghost predicate WellFormedGroup(g: RawGroup)
  {
    |g.paths| >= 2 && forall k :: 0 <= k < |g.paths| ==> IsStripped(g.paths[k])
  }

  lemma {:induction false} GroupsByIdWellFormed(nas: Nas, reportPath: string, table: string, pathColumn: string,
                                                groupColumn: string, groupIds: seq<string>)
    ensures forall g :: g in GroupsById(nas, reportPath, table, pathColumn, groupColumn, groupIds) ==> WellFormedGroup(g)
  {
    if groupIds != [] {
      GroupsByIdWellFormed(nas, reportPath, table, pathColumn, groupColumn, groupIds[..|groupIds| - 1]);
      var groupId := groupIds[|groupIds| - 1];
      NonBlankLinesShape(nas.run(Sqlite(reportPath, SelectWhere(pathColumn, table, groupColumn, groupId))).output);
    }
  }

  /** A table without a group column gives at most the one "default" group,
      of at least two stripped paths. */
  lemma {:induction false} UngroupedTableShape(nas: Nas, reportPath: string, table: string, pathColumn: string)
    ensures |UngroupedTable(nas, reportPath, table, pathColumn)| <= 1
    ensures forall g :: g in UngroupedTable(nas, reportPath, table, pathColumn) ==>
      g.groupId == "default" && WellFormedGroup(g)
  {
    NonBlankLinesShape(nas.run(Sqlite(reportPath, SelectAll(pathColumn, table))).output);
  }

  lemma {:induction false} GroupedTableShape(nas: Nas, reportPath: string, table: string, pathColumn: string, groupColumn: string)
    ensures forall g :: g in GroupedTable(nas, reportPath, table, pathColumn, groupColumn) ==> WellFormedGroup(g)
  {
    var res := nas.run(Sqlite(reportPath, DistinctValues(groupColumn, table)));
    GroupsByIdWellFormed(nas, reportPath, table, pathColumn, groupColumn, NonBlankLines(res.output));
  }

  /** Every group read from a table is well formed; a table without a group
      column gives at most the one "default" group. */
  lemma {:induction false} ColumnGroupsShape(nas: Nas, reportPath: string, table: string, columns: seq<string>)
    ensures forall g :: g in ColumnGroups(nas, reportPath, table, columns) ==> WellFormedGroup(g)
    ensures FirstWith(columns, Mentions("group")).None? ==>
              |ColumnGroups(nas, reportPath, table, columns)| <= 1 &&
              forall g :: g in ColumnGroups(nas, reportPath, table, columns) ==> g.groupId == "default"
  {
    var pathColumn := PathColumn(columns);
    var groupColumn := FirstWith(columns, Mentions("group"));
    if pathColumn.None? || pathColumn.value == "" {
      assert ColumnGroups(nas, reportPath, table, columns) == [];
    } else if groupColumn.Some? {
      assert ColumnGroups(nas, reportPath, table, columns) ==
        GroupedTable(nas, reportPath, table, pathColumn.value, groupColumn.value);
      GroupedTableShape(nas, reportPath, table, pathColumn.value, groupColumn.value);
    } else {
      assert ColumnGroups(nas, reportPath, table, columns) == UngroupedTable(nas, reportPath, table, pathColumn.value);
      UngroupedTableShape(nas, reportPath, table, pathColumn.value);
    }
  }

  lemma {:induction false} TableGroupsWellFormed(nas: Nas, reportPath: string, table: string)
    ensures forall g :: g in TableGroups(nas, reportPath, table) ==> WellFormedGroup(g)
  {
    var info := nas.run(Sqlite(reportPath, TableInfo(table)));
    ColumnGroupsShape(nas, reportPath, table, ColumnsOf(Lines(info.output)));
  }

  /** Every group comes from a table whose lower-cased name contains "dup",
      and is well formed. */
  lemma {:induction false} GroupsOfTablesFromDupTables(nas: Nas, reportPath: string, tables: seq<string>, g: RawGroup)
    requires g in GroupsOfTables(nas, reportPath, tables)
    ensures exists t :: t in tables && Contains(Lower(t), "dup") && g in TableGroups(nas, reportPath, t)
    ensures WellFormedGroup(g)
  {
    var init := tables[..|tables| - 1];
    var table := tables[|tables| - 1];
    if g in GroupsOfTables(nas, reportPath, init) {
      GroupsOfTablesFromDupTables(nas, reportPath, init, g);
      var t :| t in init && Contains(Lower(t), "dup") && g in TableGroups(nas, reportPath, t);
      assert t in tables;
    } else {
      IsDupTableIff(table);
      TableGroupsWellFormed(nas, reportPath, table);
    }
  }

  /** Every group `parse_dup_db` returns is well formed. */
  lemma {:induction false} DbGroupsWellFormed(nas: Nas, reportPath: string, g: RawGroup)
    requires g in DbGroups(nas, reportPath)
    ensures WellFormedGroup(g)
  {
    var names := nas.run(Sqlite(reportPath, TableNames));
    GroupsOfTablesFromDupTables(nas, reportPath, NonBlankLines(names.output), g);
  }

  /** `parse_dup_db`. */
  method ParseDupDb(nas: Nas, reportPath: string) returns (duplicateGroups: seq<RawGroup>)
    ensures duplicateGroups == DbGroups(nas, reportPath)
  {
    var probe := nas.run(Sqlite(reportPath, ListTables));
    if !probe.success || Contains(probe.output, "not a database") || Contains(probe.error, "not a database") {
      return [];
    }
    var names := nas.run(Sqlite(reportPath, TableNames));
    if !names.success || names.output == "" {
      return [];
    }
    var tables := NonBlankLines(names.output);
    duplicateGroups := ReadTables(nas, reportPath, tables);
  }

  /** One more table appends its groups when its name marks it as a duplicates table. */
  lemma GroupsOfTablesSnoc(nas: Nas, reportPath: string, tables: seq<string>, i: nat)
    requires i < |tables|
    ensures GroupsOfTables(nas, reportPath, tables[..i + 1]) == GroupsOfTables(nas, reportPath, tables[..i])
      + (if IsDupTable(tables[i]) then TableGroups(nas, reportPath, tables[i]) else [])
  {
    assert tables[..i + 1][..i] == tables[..i];
  }

  /** The loop of `parse_dup_db` over the tables. */
  method ReadTables(nas: Nas, reportPath: string, tables: seq<string>) returns (duplicateGroups: seq<RawGroup>)
    ensures duplicateGroups == GroupsOfTables(nas, reportPath, tables)
  {
    duplicateGroups := [];
    var i := 0;
    while i < |tables|
      invariant 0 <= i <= |tables|
      invariant duplicateGroups == GroupsOfTables(nas, reportPath, tables[..i])
    {
      var tableName := tables[i];
      GroupsOfTablesSnoc(nas, reportPath, tables, i);
      if Contains(Lower(tableName), "dup") || Contains(Lower(tableName), "duplicate") {
        var more := ReadTable(nas, reportPath, tableName);
        duplicateGroups := duplicateGroups + more;
      }
      i := i + 1;
    }
    assert tables[..i] == tables;
  }

  /** The body of the loop over the tables of `parse_dup_db`. */
  method ReadTable(nas: Nas, reportPath: string, tableName: string) returns (groups: seq<RawGroup>)
    ensures groups == TableGroups(nas, reportPath, tableName)
  {
    var info := nas.run(Sqlite(reportPath, TableInfo(tableName)));
    if !info.success || info.output == "" {
      return [];
    }
    var columns := ParseColumns(Lines(info.output));
    if columns == [] {
      assert PathColumn(columns).None?;
      return [];
    }
    groups := ReadColumns(nas, reportPath, tableName, columns);
  }

  /** The part of that loop body after the columns are known. */
  method ReadColumns(nas: Nas, reportPath: string, tableName: string, columns: seq<string>) returns (groups: seq<RawGroup>)
    ensures groups == ColumnGroups(nas, reportPath, tableName, columns)
  {
    var pathCol := PathColumn(columns);
    if pathCol.None? || pathCol.value == "" {
      return [];
    }
    var groupCol := FirstWith(columns, Mentions("group"));
    if groupCol.Some? {
      groups := ReadGroupedTable(nas, reportPath, tableName, pathCol.value, groupCol.value);
    } else {
      groups := ReadUngroupedTable(nas, reportPath, tableName, pathCol.value);
    }
  }

  /** A table with a group column: its distinct group ids, then the paths of each. */
  method ReadGroupedTable(nas: Nas, reportPath: string, tableName: string, pathColumn: string, groupColumn: string)
    returns (groups: seq<RawGroup>)
    ensures groups == GroupedTable(nas, reportPath, tableName, pathColumn, groupColumn)
  {
    groups := [];
    var res := nas.run(Sqlite(reportPath, DistinctValues(groupColumn, tableName)));
    if res.success && res.output != "" {
      groups := ReadGroups(nas, reportPath, tableName, pathColumn, groupColumn, NonBlankLines(res.output));
    }
  }

  /** A table without a group column: all its paths as one "default" group. */
  method ReadUngroupedTable(nas: Nas, reportPath: string, tableName: string, pathColumn: string)
    returns (groups: seq<RawGroup>)
    ensures groups == UngroupedTable(nas, reportPath, tableName, pathColumn)
  {
    groups := [];
    var res := nas.run(Sqlite(reportPath, SelectAll(pathColumn, tableName)));
    if res.success && res.output != "" {
      var allPaths := NonBlankLines(res.output);
      if |allPaths| >= 2 {
        groups := [RawGroup("default", allPaths)];
      }
    }
  }

  /** The loop over the distinct group ids of one table. */
  method ReadGroups(nas: Nas, reportPath: string, table: string, pathColumn: string, groupColumn: string,
                    groupIds: seq<string>) returns (groups: seq<RawGroup>)
    ensures groups == GroupsById(nas, reportPath, table, pathColumn, groupColumn, groupIds)
  {
    groups := [];
    var i := 0;
    while i < |groupIds|
      invariant 0 <= i <= |groupIds|
      invariant groups == GroupsById(nas, reportPath, table, pathColumn, groupColumn, groupIds[..i])
    {
      var groupId := groupIds[i];
      assert groupIds[..i + 1][..i] == groupIds[..i];
      var res := nas.run(Sqlite(reportPath, SelectWhere(pathColumn, table, groupColumn, groupId)));
      if res.success && res.output != "" {
        var paths := NonBlankLines(res.output);
        if |paths| >= 2 {
          groups := groups + [RawGroup(groupId, paths)];
        }
      }
      i := i + 1;
    }
    assert groupIds[..i] == groupIds;
  }

  // ---------------------------------------------------------------------------
  // The CSV export

  /** The tab-separated export as `csv.DictReader` sees it: the header (the
      field names) and the following non-empty records, each a list of fields. */
  datatype CsvTable = CsvTable(header: seq<string>, rows: seq<seq<string>>)

  const ByteOrderMark: char := '\U{FEFF}'

  /** `s.replace(c, '')`. */
  function Without(s: string, c: char): (r: string)
    ensures c !in r
  {
    if s == [] then [] else (if s[0] == c then [] else [s[0]]) + Without(s[1..], c)
  }

  /** A header name without byte-order marks or surrounding white space, lower-cased. */
  function CleanKey(key: string): string
  {
    Lower(Strip(Without(key, ByteOrderMark)))
  }

  /** The header names the group id column. */
  predicate IsGroupKey(key: string)
  {
    Contains(CleanKey(key), "group")
  }

  /** The header names the file column: "file" itself, or one mentioning
      "file" but not "path". */
  predicate IsFileKey(key: string)
  {
    CleanKey(key) == "file" || (Contains(CleanKey(key), "file") && !Contains(CleanKey(key), "path"))
  }

  /** `x` is the last element of `xs` that satisfies `p`. */
  ghost predicate IsLast<T>(xs: seq<T>, p: T -> bool, x: T)
  {
    exists i :: 0 <= i < |xs| && xs[i] == x && p(x) && forall j :: i < j < |xs| ==> !p(xs[j])
  }

  /** The last element that satisfies `p`: the value a loop that overwrites a
      variable on each match leaves behind. */
  function LastWith<T>(xs: seq<T>, p: T -> bool): Option<T>
  {
    if xs == [] then None
    else if p(xs[|xs| - 1]) then Some(xs[|xs| - 1])
    else LastWith(xs[..|xs| - 1], p)
  }

  /** The result is the last element satisfying `p`, and there is none
      exactly when no element does. */
  lemma {:induction false} LastWithSpec<T>(xs: seq<T>, p: T -> bool)
    ensures LastWith(xs, p).None? <==> forall i :: 0 <= i < |xs| ==> !p(xs[i])
    ensures LastWith(xs, p).Some? ==> IsLast(xs, p, LastWith(xs, p).value)
  {
    if xs != [] {
      var init := xs[..|xs| - 1];
      LastWithSpec(init, p);
      var r := LastWith(xs, p);
      if p(xs[|xs| - 1]) {
        assert xs[|xs| - 1] == r.value;
      } else if r.Some? {
        var i :| 0 <= i < |init| && init[i] == r.value && p(r.value) && forall j :: i < j < |init| ==> !p(init[j]);
        assert xs[i] == r.value;
        forall j | i < j < |xs|
          ensures !p(xs[j])
        {
          if j < |init| {
            assert xs[j] == init[j];
          }
        }
      } else {
        forall j | 0 <= j < |xs|
          ensures !p(xs[j])
        {
          if j < |init| {
            assert xs[j] == init[j];
          }
        }
      }
    }
  }

  /** One more element at the end decides when it satisfies `p`. */
  lemma {:induction false} LastWithStep<T>(xs: seq<T>, i: nat, p: T -> bool)
    requires i < |xs|
    ensures LastWith(xs[..i + 1], p) == if p(xs[i]) then Some(xs[i]) else LastWith(xs[..i], p)
  {
    assert xs[..i + 1][..i] == xs[..i];
  }

  function GroupKeyTest(): string -> bool
  {
    k => IsGroupKey(k)
  }

  function FileKeyTest(): string -> bool
  {
    k => IsFileKey(k)
  }

  /** The loop over the field names that picks the group and file columns. */
  method DetectKeys(fieldnames: seq<string>) returns (groupKey: Option<string>, pathKey: Option<string>)
    ensures groupKey == LastWith(fieldnames, GroupKeyTest())
    ensures pathKey == LastWith(fieldnames, FileKeyTest())
  {
    groupKey, pathKey := None, None;
    var i := 0;
    while i < |fieldnames|
      invariant 0 <= i <= |fieldnames|
      invariant groupKey == LastWith(fieldnames[..i], GroupKeyTest())
      invariant pathKey == LastWith(fieldnames[..i], FileKeyTest())
    {
      var key := fieldnames[i];
      assert fieldnames[..i + 1][..i] == fieldnames[..i];
      var keyLower := CleanKey(key);
      LastWithStep(fieldnames, i, GroupKeyTest());
      LastWithStep(fieldnames, i, FileKeyTest());
      if Contains(keyLower, "group") {
        groupKey := Some(key);
      }
      if keyLower == "file" || (Contains(keyLower, "file") && !Contains(keyLower, "path")) {
        pathKey := Some(key);
      }
      i := i + 1;
    }
    assert fieldnames[..i] == fieldnames;
  }

  /** `row.get(key, '')` on the dictionary `csv.DictReader` builds from a
      record: the field under the last header named `key`; `None` (the
      reader's `restval`) when the record is too short to reach it. */
  function Field(header: seq<string>, row: seq<string>, key: string): Option<string>
  {
    var i := LastPosition(header, key);
    if i < 0 then Some("")
    else if i < |row| then Some(row[i])
    else None
  }

  /** A record holds the value of a column when it reaches the last header of
      that name, and the reader's `restval` otherwise; a name that is no
      header reads as "". */
  lemma {:induction false} FieldSpec(header: seq<string>, row: seq<string>, key: string, i: int)
    requires 0 <= i < |header| && header[i] == key
    requires forall j :: i < j < |header| ==> header[j] != key
    ensures i < |row| ==> Field(header, row, key) == Some(row[i])
    ensures i >= |row| ==> Field(header, row, key).None?
  {
    LastPositionSpec(header, key);
  }

  lemma {:induction false} FieldOfMissingKey(header: seq<string>, row: seq<string>, key: string)
    requires key !in header
    ensures Field(header, row, key) == Some("")
  {
    LastPositionSpec(header, key);
  }

  /** A record too short to reach one of the two columns. */
  predicate ShortRow(header: seq<string>, row: seq<string>, groupKey: string, fileKey: string)
  {
    Field(header, row, groupKey).None? || Field(header, row, fileKey).None?
  }

  /** What one record adds: its stripped (group id, file path) when both are
      non-blank, nothing otherwise; `None` when `.strip()` meets a missing
      field and raises. */
  function RowEntry(header: seq<string>, row: seq<string>, groupKey: string, fileKey: string): (r: Option<seq<(string, string)>>)
    ensures r.None? <==> ShortRow(header, row, groupKey, fileKey)
  {
    var groupField := Field(header, row, groupKey);
    var fileField := Field(header, row, fileKey);
    if groupField.None? || fileField.None? then None
    else
      var groupId := Strip(groupField.value);
      var filePath := Strip(fileField.value);
      if groupId != "" && filePath != "" then Some([(groupId, filePath)]) else Some([])
  }

  lemma {:induction false} RowEntryShape(header: seq<string>, row: seq<string>, groupKey: string, fileKey: string)
    requires RowEntry(header, row, groupKey, fileKey).Some?
    ensures forall e :: e in RowEntry(header, row, groupKey, fileKey).value ==> IsStripped(e.0) && IsStripped(e.1)
  {
    var groupId := Field(header, row, groupKey).value;
    var filePath := Field(header, row, fileKey).value;
    StripIdempotent(groupId);
    StripIdempotent(filePath);
  }

  /** The entries of the records, in record order; `None` when a record raises. */
  function Entries(header: seq<string>, rows: seq<seq<string>>, groupKey: string, fileKey: string): Option<seq<(string, string)>>
  {
    if rows == [] then Some([])
    else
      var init := Entries(header, rows[..|rows| - 1], groupKey, fileKey);
      var last := RowEntry(header, rows[|rows| - 1], groupKey, fileKey);
      if init.None? || last.None? then None else Some(init.value + last.value)
  }

  /** A record too short to reach either column makes the parse raise. */
  lemma {:induction false} ShortRowFails(header: seq<string>, rows: seq<seq<string>>, groupKey: string, fileKey: string, k: nat)
    requires k < |rows| && ShortRow(header, rows[k], groupKey, fileKey)
    ensures Entries(header, rows, groupKey, fileKey).None?
  {
    var init := rows[..|rows| - 1];
    EntriesFail(header, rows, groupKey, fileKey);
    if k < |init| {
      assert init[k] == rows[k];
      ShortRowFails(header, init, groupKey, fileKey, k);
      assert Entries(header, init, groupKey, fileKey).None?;
    } else {
      assert ShortRow(header, rows[|rows| - 1], groupKey, fileKey);
    }
  }

  /** One loop step over the records: a record that does not raise appends
      its entries. */
  lemma EntriesStep(header: seq<string>, rows: seq<seq<string>>, i: nat, groupKey: string, fileKey: string)
    requires i < |rows| && Entries(header, rows[..i], groupKey, fileKey).Some?
    requires RowEntry(header, rows[i], groupKey, fileKey).Some?
    ensures Entries(header, rows[..i + 1], groupKey, fileKey) ==
            Some(Entries(header, rows[..i], groupKey, fileKey).value + RowEntry(header, rows[i], groupKey, fileKey).value)
  {
    assert rows[..i + 1][..i] == rows[..i];
  }

  /** The parse of the records raises exactly when the parse of all but the
      last raises or the last record is too short. */
  lemma EntriesFail(header: seq<string>, rows: seq<seq<string>>, groupKey: string, fileKey: string)
    requires rows != []
    ensures Entries(header, rows, groupKey, fileKey).None? <==>
            Entries(header, rows[..|rows| - 1], groupKey, fileKey).None? ||
            ShortRow(header, rows[|rows| - 1], groupKey, fileKey)
  {
  }

  /** The parse raises only at a record too short to reach a column. */
  lemma {:induction false} FailureHasShortRow(header: seq<string>, rows: seq<seq<string>>, groupKey: string, fileKey: string)
    requires Entries(header, rows, groupKey, fileKey).None?
    ensures exists k :: 0 <= k < |rows| && ShortRow(header, rows[k], groupKey, fileKey)
  {
    var init := rows[..|rows| - 1];
    if Entries(header, init, groupKey, fileKey).None? {
      FailureHasShortRow(header, init, groupKey, fileKey);
      var k :| 0 <= k < |init| && ShortRow(header, init[k], groupKey, fileKey);
      assert rows[k] == init[k];
    } else {
      assert ShortRow(header, rows[|rows| - 1], groupKey, fileKey);
    }
  }

  /** Every entry holds a non-blank, stripped group id and file path. */
  lemma {:induction false} EntriesShape(header: seq<string>, rows: seq<seq<string>>, groupKey: string, fileKey: string)
    requires Entries(header, rows, groupKey, fileKey).Some?
    ensures forall e :: e in Entries(header, rows, groupKey, fileKey).value ==> IsStripped(e.0) && IsStripped(e.1)
  {
    if rows != [] {
      EntriesShape(header, rows[..|rows| - 1], groupKey, fileKey);
      RowEntryShape(header, rows[|rows| - 1], groupKey, fileKey);
    }
  }

  /** The files under each group id, as the `groups` dictionary collects them. */
  function GroupEntries(entries: seq<(string, string)>): Grouping
  {
    if entries == [] then NoFiles
    else
      var e := entries[|entries| - 1];
      Append(GroupEntries(entries[..|entries| - 1]), e.0, e.1)
  }

  lemma {:induction false} GroupEntriesSnoc(entries: seq<(string, string)>, e: (string, string))
    ensures GroupEntries(entries + [e]) == Append(GroupEntries(entries), e.0, e.1)
  {
    assert (entries + [e])[..|entries|] == entries;
  }

  /** The files of the entries of group `groupId`, in entry order. */
  function FilesOf(entries: seq<(string, string)>, groupId: string): (r: seq<string>)
    ensures |r| <= |entries|
  {
    if entries == [] then []
    else
      var e := entries[|entries| - 1];
      FilesOf(entries[..|entries| - 1], groupId) + (if e.0 == groupId then [e.1] else [])
  }

  /** Each group id keeps its files in record order, and the key order lists
      each group id once. */
  lemma {:induction false} GroupEntriesContents(entries: seq<(string, string)>, groupId: string)
    ensures Get(GroupEntries(entries), groupId) == FilesOf(entries, groupId)
    ensures WellFormed(GroupEntries(entries))
  {
    if entries != [] {
      var e := entries[|entries| - 1];
      GroupEntriesContents(entries[..|entries| - 1], groupId);
      GetAppend(GroupEntries(entries[..|entries| - 1]), e.0, e.1, groupId);
      AppendWellFormed(GroupEntries(entries[..|entries| - 1]), e.0, e.1);
    }
  }

  /** The groups with at least two files, in the order their ids first appeared. */
  function GroupsOfSize2(g: Grouping, keys: seq<string>): seq<RawGroup>
  {
    if keys == [] then []
    else
      var k := keys[|keys| - 1];
      GroupsOfSize2(g, keys[..|keys| - 1]) + (if |Get(g, k)| >= 2 then [RawGroup(k, Get(g, k))] else [])
  }

  /** A group is returned exactly when its id is a key with at least two files. */
  lemma {:induction false} GroupsOfSize2Members(g: Grouping, keys: seq<string>, r: RawGroup)
    ensures r in GroupsOfSize2(g, keys) <==> r.groupId in keys && r.paths == Get(g, r.groupId) && |r.paths| >= 2
  {
    if keys != [] {
      GroupsOfSize2Members(g, keys[..|keys| - 1], r);
      assert keys == keys[..|keys| - 1] + [keys[|keys| - 1]];
    }
  }

  /** What `parse_csv_zip` returns, given the table read from the export
      (`None` when no export could be read); `None` when it raises. */
  function CsvGroups(csv: Option<CsvTable>): Option<seq<RawGroup>>
  {
    if csv.None? || csv.value.header == [] then Some([])
    else
      var groupKey := LastWith(csv.value.header, GroupKeyTest());
      var pathKey := LastWith(csv.value.header, FileKeyTest());
      if groupKey.None? || pathKey.None? then Some([])
      else
        var entries := Entries(csv.value.header, csv.value.rows, groupKey.value, pathKey.value);
        if entries.None? then None
        else
          var g := GroupEntries(entries.value);
          Some(GroupsOfSize2(g, g.keys))
  }

  /** Each returned group gathers, in record order, the files of every record
      of its id, has at least two of them, and no id is returned twice. */
  lemma {:induction false} CsvGroupsContents(t: CsvTable, r: RawGroup)
    requires CsvGroups(Some(t)).Some? && r in CsvGroups(Some(t)).value
    ensures var groupKey := LastWith(t.header, GroupKeyTest()).value;
            var pathKey := LastWith(t.header, FileKeyTest()).value;
            r.paths == FilesOf(Entries(t.header, t.rows, groupKey, pathKey).value, r.groupId) && |r.paths| >= 2
    ensures forall r' :: r' in CsvGroups(Some(t)).value && r'.groupId == r.groupId ==> r' == r
  {
    var groupKey := LastWith(t.header, GroupKeyTest()).value;
    var pathKey := LastWith(t.header, FileKeyTest()).value;
    var entries := Entries(t.header, t.rows, groupKey, pathKey).value;
    var g := GroupEntries(entries);
    GroupsOfSize2Members(g, g.keys, r);
    GroupEntriesContents(entries, r.groupId);
    forall r' | r' in CsvGroups(Some(t)).value && r'.groupId == r.groupId
      ensures r' == r
    {
      GroupsOfSize2Members(g, g.keys, r');
    }
  }

  /** Every group id with at least two files is returned. */
  lemma {:induction false} CsvGroupsComplete(t: CsvTable, groupId: string)
    requires CsvGroups(Some(t)).Some? && t.header != []
    requires LastWith(t.header, GroupKeyTest()).Some? && LastWith(t.header, FileKeyTest()).Some?
    ensures var files := FilesOf(Entries(t.header, t.rows, LastWith(t.header, GroupKeyTest()).value,
                                          LastWith(t.header, FileKeyTest()).value).value, groupId);
            |files| >= 2 ==> RawGroup(groupId, files) in CsvGroups(Some(t)).value
  {
    var entries := Entries(t.header, t.rows, LastWith(t.header, GroupKeyTest()).value, LastWith(t.header, FileKeyTest()).value).value;
    var g := GroupEntries(entries);
    GroupEntriesContents(entries, groupId);
    GroupsOfSize2Members(g, g.keys, RawGroup(groupId, FilesOf(entries, groupId)));
  }

  /** `parse_csv_zip` from the header and records onwards. */
  method ParseCsv(csv: Option<CsvTable>) returns (duplicateGroups: Option<seq<RawGroup>>)
    ensures duplicateGroups == CsvGroups(csv)
    ensures csv.Some? && (LastWith(csv.value.header, GroupKeyTest()).None? || LastWith(csv.value.header, FileKeyTest()).None?)
            ==> duplicateGroups == Some([])
    ensures duplicateGroups.None? ==>
            exists k :: 0 <= k < |csv.value.rows| &&
              ShortRow(csv.value.header, csv.value.rows[k], LastWith(csv.value.header, GroupKeyTest()).value,
                       LastWith(csv.value.header, FileKeyTest()).value)
  {
    if csv.None? || csv.value.header == [] {
      return Some([]);
    }
    var groupKey, pathKey := DetectKeys(csv.value.header);
    if groupKey.None? || pathKey.None? {
      return Some([]);
    }
    var groups := CollectRows(csv.value, groupKey.value, pathKey.value);
    if groups.None? {
      FailureHasShortRow(csv.value.header, csv.value.rows, groupKey.value, pathKey.value);
      return None;
    }
    var kept := KeepGroupsOfSize2(groups.value);
    duplicateGroups := Some(kept);
  }

  /** The loop over the records that fills the `groups` dictionary; `None`
      when a record is too short. */
  method CollectRows(t: CsvTable, groupKey: string, pathKey: string) returns (groups: Option<Grouping>)
    ensures groups.None? <==> Entries(t.header, t.rows, groupKey, pathKey).None?
    ensures groups.Some? ==> groups.value == GroupEntries(Entries(t.header, t.rows, groupKey, pathKey).value)
  {
    var g := NoFiles;
    var i := 0;
    while i < |t.rows|
      invariant 0 <= i <= |t.rows|
      invariant Entries(t.header, t.rows[..i], groupKey, pathKey).Some?
      invariant g == GroupEntries(Entries(t.header, t.rows[..i], groupKey, pathKey).value)
    {
      var next := CollectRow(t.header, t.rows, i, groupKey, pathKey, g);
      if next.None? {
        return None;
      }
      g := next.value;
      i := i + 1;
    }
    assert t.rows[..i] == t.rows;
    groups := Some(g);
  }

  /** One turn of that loop: the record at `i` raises, which fails the whole
      parse, or its entry is filed into the groups of the records before it. */
  method CollectRow(header: seq<string>, rows: seq<seq<string>>, i: nat, groupKey: string, pathKey: string,
                    g: Grouping) returns (next: Option<Grouping>)
    requires i < |rows| && Entries(header, rows[..i], groupKey, pathKey).Some?
    requires g == GroupEntries(Entries(header, rows[..i], groupKey, pathKey).value)
    ensures next.None? ==> Entries(header, rows, groupKey, pathKey).None?
    ensures next.Some? ==> Entries(header, rows[..i + 1], groupKey, pathKey).Some? &&
                           next.value == GroupEntries(Entries(header, rows[..i + 1], groupKey, pathKey).value)
  {
    ghost var before := Entries(header, rows[..i], groupKey, pathKey).value;
    var entry := ReadRow(header, rows[i], groupKey, pathKey);
    if entry.None? {
      ShortRowFails(header, rows, groupKey, pathKey, i);
      return None;
    }
    EntriesStep(header, rows, i, groupKey, pathKey);
    if entry.value != [] {
      var (groupId, filePath) := entry.value[0];
      assert entry.value == [(groupId, filePath)];
      var added := AddFile(g, groupId, filePath);
      GroupEntriesSnoc(before, (groupId, filePath));
      next := Some(added);
    } else {
      assert before + [] == before;
      next := Some(g);
    }
  }

  /** The body of that loop for one record: its (group id, file path) when
      both are non-blank, nothing when either is blank, `None` where `.strip()`
      would raise. */
  method ReadRow(header: seq<string>, row: seq<string>, groupKey: string, pathKey: string)
    returns (entry: Option<seq<(string, string)>>)
    ensures entry == RowEntry(header, row, groupKey, pathKey)
    ensures entry.Some? ==> |entry.value| <= 1
  {
    var groupField := Field(header, row, groupKey);
    var fileField := Field(header, row, pathKey);
    if groupField.None? || fileField.None? {
      return None;
    }
    var groupId := Strip(groupField.value);
    var filePath := Strip(fileField.value);
    if groupId != "" && filePath != "" {
      entry := Some([(groupId, filePath)]);
    } else {
      entry := Some([]);
    }
  }

  /** The loop over `groups.items()` that keeps the groups of two or more. */
  method KeepGroupsOfSize2(groups: Grouping) returns (duplicateGroups: seq<RawGroup>)
    ensures duplicateGroups == GroupsOfSize2(groups, groups.keys)
  {
    var keys := groups.keys;
    duplicateGroups := [];
    var i := 0;
    while i < |keys|
      invariant 0 <= i <= |keys|
      invariant duplicateGroups == GroupsOfSize2(groups, keys[..i])
    {
      var groupId := keys[i];
      assert keys[..i + 1][..i] == keys[..i];
      var paths := Get(groups, groupId);
      if |paths| >= 2 {
        duplicateGroups := duplicateGroups + [RawGroup(groupId, paths)];
      }
      i := i + 1;
    }
    assert keys[..i] == keys;
  }

  // ---------------------------------------------------------------------------
  // Classification

  /** The lower-cased path ends with an image extension. Unlike
      `is_image_file`, a bare ".jpg" qualifies. */
  predicate HasImageSuffix(p: string)
  {
    exists ext :: ext in ImageExtensions && EndsWith(Lower(p), ext)
  }

  /** A path the sorted side may claim: a sorted path that is not a backup path. */
  function SortedOnly(isBackup: string -> bool, isSorted: string -> bool): string -> bool
  {
    p => !isBackup(p) && isSorted(p)
  }

  /** The outcome of `classify_duplicate_group`: the backup copy, the sorted
      copy, and whether both were found. */
  datatype Classification = Classification(backupPath: Option<string>, sortedPath: Option<string>, isValid: bool)

  /** The classification of one group, given the two folder predicates. */
  function Classify(paths: seq<string>, isBackup: string -> bool, isSorted: string -> bool): (r: Classification)
  {
    var images := Filter(paths, HasImageSuffix);
    if images == [] then Classification(None, None, false)
    else
      var backup := FirstWith(images, isBackup);
      var sorted := FirstWith(images, SortedOnly(isBackup, isSorted));
      Classification(backup, sorted, backup.Some? && sorted.Some?)
  }

  /** The backup copy is the first image path in the backup folder; the sorted
      copy is the first image path in the sorted folder that is not also a
      backup path, so the two differ; the group is valid iff both exist. */
  lemma {:induction false} ClassifyPicks(paths: seq<string>, isBackup: string -> bool, isSorted: string -> bool)
    ensures var r := Classify(paths, isBackup, isSorted);
            var images := Filter(paths, HasImageSuffix);
            && (r.isValid <==> r.backupPath.Some? && r.sortedPath.Some?)
            && (r.backupPath.Some? ==> IsFirst(images, isBackup, r.backupPath.value))
            && (r.backupPath.None? ==> forall p :: p in paths && HasImageSuffix(p) ==> !isBackup(p))
            && (r.sortedPath.Some? ==>
                  (IsFirst(images, SortedOnly(isBackup, isSorted), r.sortedPath.value)
                   && isSorted(r.sortedPath.value) && !isBackup(r.sortedPath.value)))
            && (r.sortedPath.None? ==> forall p :: p in paths && HasImageSuffix(p) && isSorted(p) ==> isBackup(p))
            && (r.isValid ==> r.backupPath.value != r.sortedPath.value)
            && (r.backupPath.Some? ==> r.backupPath.value in paths && HasImageSuffix(r.backupPath.value))
            && (r.sortedPath.Some? ==> r.sortedPath.value in paths && HasImageSuffix(r.sortedPath.value))
  {
    var images := Filter(paths, HasImageSuffix);
    FilterMembers(paths, HasImageSuffix);
    FirstWithSpec(images, isBackup);
    FirstWithSpec(images, SortedOnly(isBackup, isSorted));
    var r := Classify(paths, isBackup, isSorted);
    forall p | p in paths && HasImageSuffix(p)
      ensures r.backupPath.None? ==> !isBackup(p)
      ensures r.sortedPath.None? ==> (isSorted(p) ==> isBackup(p))
    {
      assert p in images;
      var k :| 0 <= k < |images| && images[k] == p;
    }
    if r.sortedPath.Some? {
      assert SortedOnly(isBackup, isSorted)(r.sortedPath.value);
    }
  }

  /** A group without image paths is invalid. */
  lemma {:induction false} ClassifyWithoutImages(paths: seq<string>, isBackup: string -> bool, isSorted: string -> bool)
    requires forall p :: p in paths ==> !HasImageSuffix(p)
    ensures Classify(paths, isBackup, isSorted) == Classification(None, None, false)
  {
    FilterMembers(paths, HasImageSuffix);
    if Filter(paths, HasImageSuffix) != [] {
      assert Filter(paths, HasImageSuffix)[0] in Filter(paths, HasImageSuffix);
    }
  }

  /** `classify_duplicate_group`, with `Config.is_backup_path` and
      `Config.is_sorted_path` as parameters. */
  method ClassifyDuplicateGroup(paths: seq<string>, isBackup: string -> bool, isSorted: string -> bool)
    returns (backupPath: Option<string>, sortedPath: Option<string>, isValid: bool)
    ensures Classification(backupPath, sortedPath, isValid) == Classify(paths, isBackup, isSorted)
  {
    backupPath, sortedPath := None, None;
    var imagePaths := Filter(paths, HasImageSuffix);
    if imagePaths == [] {
      return None, None, false;
    }
    var i := 0;
    while i < |imagePaths|
      invariant 0 <= i <= |imagePaths|
      invariant backupPath == FirstWith(imagePaths[..i], isBackup)
      invariant sortedPath == FirstWith(imagePaths[..i], SortedOnly(isBackup, isSorted))
    {
      var path := imagePaths[i];
      assert imagePaths[..i + 1] == imagePaths[..i] + [path];
      FirstWithSnoc(imagePaths[..i], path, isBackup);
      FirstWithSnoc(imagePaths[..i], path, SortedOnly(isBackup, isSorted));
      if isBackup(path) {
        if backupPath.None? {
          backupPath := Some(path);
        }
      } else if isSorted(path) {
        if sortedPath.None? {
          sortedPath := Some(path);
        }
      }
      i := i + 1;
    }
    assert imagePaths[..i] == imagePaths;
    isValid := backupPath.Some? && sortedPath.Some?;
  }

  // ---------------------------------------------------------------------------
  // The report

  /** The valid groups, classified, in input order. */
  function ClassifyAll(groups: seq<RawGroup>, isBackup: string -> bool, isSorted: string -> bool): (r: seq<ClassifiedGroup>)
    ensures |r| <= |groups|
  {
    if groups == [] then []
    else
      var g := groups[|groups| - 1];
      var c := Classify(g.paths, isBackup, isSorted);
      ClassifyAll(groups[..|groups| - 1], isBackup, isSorted)
        + (if c.isValid then [ClassifiedGroup(g.groupId, c.backupPath.value, c.sortedPath.value, g.paths)] else [])
  }

  /** Exactly the valid groups are returned, each with its classification. */
  lemma {:induction false} ClassifyAllMembers(groups: seq<RawGroup>, isBackup: string -> bool, isSorted: string -> bool,
                                              g: RawGroup)
    ensures g in groups && Classify(g.paths, isBackup, isSorted).isValid ==>
      var c := Classify(g.paths, isBackup, isSorted);
      ClassifiedGroup(g.groupId, c.backupPath.value, c.sortedPath.value, g.paths) in ClassifyAll(groups, isBackup, isSorted)
    ensures forall cg :: cg in ClassifyAll(groups, isBackup, isSorted) ==>
      exists h :: h in groups && h.groupId == cg.groupId && h.paths == cg.allPaths &&
        Classify(h.paths, isBackup, isSorted) == Classification(Some(cg.backupPath), Some(cg.sortedPath), true)
  {
    if groups != [] {
      var init := groups[..|groups| - 1];
      ClassifyAllMembers(init, isBackup, isSorted, g);
      assert groups == init + [groups[|groups| - 1]];
      forall cg | cg in ClassifyAll(groups, isBackup, isSorted)
        ensures exists h :: (h in groups && h.groupId == cg.groupId && h.paths == cg.allPaths &&
                             Classify(h.paths, isBackup, isSorted) == Classification(Some(cg.backupPath), Some(cg.sortedPath), true))
      {
        if cg in ClassifyAll(init, isBackup, isSorted) {
          var h :| h in init && h.groupId == cg.groupId && h.paths == cg.allPaths &&
            Classify(h.paths, isBackup, isSorted) == Classification(Some(cg.backupPath), Some(cg.sortedPath), true);
          assert h in groups;
        } else {
          assert groups[|groups| - 1] in groups;
        }
      }
    }
  }

  /** The groups handed to the classification: the database's, or the CSV
      export's when the database gives none; `None` when reading the export raises. */
  function RawGroups(nas: Nas, reportPath: string, csv: Option<CsvTable>): Option<seq<RawGroup>>
  {
    var db := DbGroups(nas, reportPath);
    if db != [] then Some(db) else CsvGroups(csv)
  }

  /** What `parse_report(report_path)` returns; `None` when it raises. */
  function Report(nas: Nas, reportPath: string, csv: Option<CsvTable>, isBackup: string -> bool,
                  isSorted: string -> bool): Option<seq<ClassifiedGroup>>
  {
    var raw := RawGroups(nas, reportPath, csv);
    if raw.None? then None else Some(ClassifyAll(raw.value, isBackup, isSorted))
  }

  /** The CSV export is consulted only when the database gives no group. */
  lemma ReportPrefersDatabase(nas: Nas, reportPath: string, csv1: Option<CsvTable>, csv2: Option<CsvTable>,
                              isBackup: string -> bool, isSorted: string -> bool)
    requires DbGroups(nas, reportPath) != []
    ensures Report(nas, reportPath, csv1, isBackup, isSorted) == Report(nas, reportPath, csv2, isBackup, isSorted)
    ensures Report(nas, reportPath, csv1, isBackup, isSorted).Some?
  {
  }

  /** Every reported group has at least two paths, and its backup and sorted
      copies are distinct image paths of the group. */
  lemma {:induction false} ReportGroupsShape(nas: Nas, reportPath: string, csv: Option<CsvTable>, isBackup: string -> bool,
                          isSorted: string -> bool, cg: ClassifiedGroup)
    requires Report(nas, reportPath, csv, isBackup, isSorted).Some?
    requires cg in Report(nas, reportPath, csv, isBackup, isSorted).value
    ensures |cg.allPaths| >= 2
    ensures cg.backupPath in cg.allPaths && cg.sortedPath in cg.allPaths && cg.backupPath != cg.sortedPath
    ensures isBackup(cg.backupPath) && isSorted(cg.sortedPath) && !isBackup(cg.sortedPath)
    ensures HasImageSuffix(cg.backupPath) && HasImageSuffix(cg.sortedPath)
  {
    var raw := RawGroups(nas, reportPath, csv).value;
    ClassifyAllMembers(raw, isBackup, isSorted, RawGroup(cg.groupId, cg.allPaths));
    var h :| h in raw && h.groupId == cg.groupId && h.paths == cg.allPaths &&
      Classify(h.paths, isBackup, isSorted) == Classification(Some(cg.backupPath), Some(cg.sortedPath), true);
    ClassifyPicks(h.paths, isBackup, isSorted);
    if DbGroups(nas, reportPath) != [] {
      DbGroupsWellFormed(nas, reportPath, h);
    } else {
      CsvGroupsContents(csv.value, h);
    }
  }

  /** One more raw group appends its classified form when it is valid. */
  lemma ClassifyAllSnoc(groups: seq<RawGroup>, i: nat, isBackup: string -> bool, isSorted: string -> bool)
    requires i < |groups|
    ensures var g := groups[i];
            var c := Classify(g.paths, isBackup, isSorted);
            ClassifyAll(groups[..i + 1], isBackup, isSorted) == ClassifyAll(groups[..i], isBackup, isSorted)
              + (if c.isValid then [ClassifiedGroup(g.groupId, c.backupPath.value, c.sortedPath.value, g.paths)] else [])
  {
    assert groups[..i + 1][..i] == groups[..i];
  }

  /** The loop of `parse_report` over the raw groups. */
  method ClassifyGroups(duplicateGroupsRaw: seq<RawGroup>, isBackup: string -> bool, isSorted: string -> bool)
    returns (groups: seq<ClassifiedGroup>)
    ensures groups == ClassifyAll(duplicateGroupsRaw, isBackup, isSorted)
  {
    groups := [];
    var i := 0;
    while i < |duplicateGroupsRaw|
      invariant 0 <= i <= |duplicateGroupsRaw|
      invariant groups == ClassifyAll(duplicateGroupsRaw[..i], isBackup, isSorted)
    {
      var group := duplicateGroupsRaw[i];
      ClassifyAllSnoc(duplicateGroupsRaw, i, isBackup, isSorted);
      var backupPath, sortedPath, isValid := ClassifyDuplicateGroup(group.paths, isBackup, isSorted);
      if isValid {
        groups := groups + [ClassifiedGroup(group.groupId, backupPath.value, sortedPath.value, group.paths)];
      }
      i := i + 1;
    }
    assert duplicateGroupsRaw[..i] == duplicateGroupsRaw;
  }

  /** `parse_report`. */
  method ParseReport(nas: Nas, reportPath: string, csv: Option<CsvTable>, isBackup: string -> bool,
                     isSorted: string -> bool) returns (classifiedGroups: Option<seq<ClassifiedGroup>>)
    ensures classifiedGroups == Report(nas, reportPath, csv, isBackup, isSorted)
  {
    var duplicateGroupsRaw := ParseDupDb(nas, reportPath);
    if duplicateGroupsRaw == [] {
      var csvGroups := ParseCsv(csv);
      if csvGroups.None? {
        return None;
      }
      duplicateGroupsRaw := csvGroups.value;
    }
    var groups := ClassifyGroups(duplicateGroupsRaw, isBackup, isSorted);
    classifiedGroups := Some(groups);
  }
}
