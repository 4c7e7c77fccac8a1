/**
 * The schema digest that `generate_sql` puts into its prompt. The schema
 * text is scanned line by line while the name of the table being read is
 * remembered: a `CREATE TABLE` line emits `name:` and opens that table, a
 * line of an open table that mentions one of four column types emits two
 * spaces and the column's name, and a line holding `);` closes the table.
 * Only the first 80 entries are kept.
 */
module SchemaDigest {
  import opened Wrappers
  import opened PyStr

  const MaxEntries: nat := 80
  const CreateTable: string := "CREATE TABLE"
  const TableEnd: string := ");"
  const Structural: seq<string> := ["primary", "foreign", "references", "not", "unique"]

  /** `any(dtype in line for dtype in ['INTEGER', 'TEXT', 'SMALLINT', 'DECIMAL'])` */
  predicate HasTypeKeyword(line: string) {
    Contains(line, "INTEGER") || Contains(line, "TEXT") || Contains(line, "SMALLINT") || Contains(line, "DECIMAL")
  }

  /** Python truthiness of `current_table`: `None` and `''` both mean no table. */
  predicate IsOpen(current: Option<string>) {
    current.Some? && current.value != []
  }

  /** `line.split('CREATE TABLE')[1].split('(')[0].strip()`: the stripped text
      between the keyword and the next `(`; every character of it comes
      from the line. */
  function TableName(line: string): (name: string)
    requires Contains(line, CreateTable)
    ensures Strip(name) == name
    ensures '(' !in name
    ensures forall c :: c in name ==> c in line
  {
    var afterKeyword := Split(line, CreateTable)[1];
    var beforeParen := Split(afterKeyword, "(")[0];
    StripStripped(beforeParen);
    ContainsChar(beforeParen, '(');
    SplitChars(line, CreateTable);
    SplitChars(afterKeyword, "(");
    SplitPieces(afterKeyword, "(");
    StripChars(beforeParen);
    Strip(beforeParen)
  }

  /** The table name is the stripped text between the line's first
      `CREATE TABLE` and the next `(`. */
  lemma {:induction false} TableNameBetween(line: string, p: string, m: string, q: string)
    requires line == p + CreateTable + m + "(" + q
    requires forall j :: 0 <= j < |p| ==> !OccursAt(line, CreateTable, j)
    requires '(' !in m && !Contains(m, CreateTable)
    ensures Contains(line, CreateTable) && TableName(line) == Strip(m)
  {
    var kw := CreateTable;
    var after := m + "(" + q;
    assert '(' !in kw;
    KeywordAt(line, p, kw, after);
    FindSpec(line, kw);
    SplitFirst(line, kw, |p|);
    assert Split(line, kw)[1] == Split(after, kw)[0];
    NoKeywordBeforeParen(m, q, kw);
    SplitHeadPrefix(after, kw, |m| + 1);
    assert after[..|m| + 1] == m + "(";
    ParenFirst(Split(after, kw)[0], m);
  }

  /** The keyword in the middle of a line. */
  lemma {:induction false} KeywordAt(line: string, p: string, kw: string, after: string)
    requires line == p + kw + after
    ensures OccursAt(line, kw, |p|) && line[|p| + |kw|..] == after
  {
    assert line[|p|..|p| + |kw|] == kw;
  }

  /** A keyword without `(` that does not occur in `m` cannot start in `m`
      or at the `(` after it. */
  lemma {:induction false} NoKeywordBeforeParen(m: string, q: string, kw: string)
    requires '(' !in kw && !Contains(m, kw)
    ensures forall j :: 0 <= j < |m| + 1 ==> !OccursAt(m + "(" + q, kw, j)
  {
    var after := m + "(" + q;
    FindSpec(m, kw);
    forall j | 0 <= j < |m| + 1
      ensures !OccursAt(after, kw, j)
    {
      if j + |kw| <= |m| {
        assert !OccursAt(m, kw, j);
        assert after[j..j + |kw|] == m[j..j + |kw|];
      } else if j + |kw| <= |after| {
        assert after[j..j + |kw|][|m| - j] == after[|m|] == '(';
      }
    }
  }

  /** Splitting on `(` a text that starts with `m(`, `m` free of `(`. */
  lemma {:induction false} ParenFirst(h: string, m: string)
    requires |m| + 1 <= |h| && h[..|m| + 1] == m + "(" && '(' !in m
    ensures Split(h, "(")[0] == m
  {
    assert h[|m|..|m| + 1] == "(";
    forall j | 0 <= j < |m|
      ensures !OccursAt(h, "(", j)
    {
      assert h[j..j + 1][0] == h[j] == m[j];
    }
    SplitFirst(h, "(", |m|);
    assert h[..|m|] == m;
  }

  /** A line that mentions a type keyword has a first word. */
  lemma {:induction false} TypeLineHasWord(line: string)
    requires HasTypeKeyword(line)
    ensures Words(Strip(line)) != []
  {
    if Contains(line, "INTEGER") {
      ContainsNotBlank(line, "INTEGER");
    } else if Contains(line, "TEXT") {
      ContainsNotBlank(line, "TEXT");
    } else if Contains(line, "SMALLINT") {
      ContainsNotBlank(line, "SMALLINT");
    } else {
      ContainsNotBlank(line, "DECIMAL");
    }
    StripEmptyIffBlank(line);
    StripByShape(line, IsSpace);
    WordsCons(Strip(line));
  }

  /** A line holding a word that starts with a non-blank is not blank. */
  lemma {:induction false} ContainsNotBlank(line: string, kw: string)
    requires kw != [] && !IsSpace(kw[0]) && Contains(line, kw)
    ensures !AllSpace(line)
  {
    FindSpec(line, kw);
    var j := Find(line, kw).value;
    assert line[j] == line[j..j + |kw|][0];
  }

  /** `line.strip().split()[0].strip().strip(',')`: the first word of the
      line without its surrounding commas; it holds no whitespace and does
      not begin or end with a comma. */
  function ColumnName(line: string): (col: string)
    requires HasTypeKeyword(line)
    ensures NoSpace(col)
    ensures col != [] ==> col[0] != ',' && col[|col| - 1] != ','
  {
    TypeLineHasWord(line);
    WordsShape(Strip(line));
    var first := Strip(Words(Strip(line))[0]);
    NoSpaceStripBy(Words(Strip(line))[0], IsSpace);
    NoSpaceStripBy(first, IsComma);
    StripByShape(first, IsComma);
    StripBy(first, IsComma)
  }

  /** The column name is the line's first word with the commas at either
      end of it stripped. */
  lemma {:induction false} ColumnOfFirstWord(line: string, pad: nat, w: string, rest: string)
    requires HasTypeKeyword(line)
    requires pad <= |line| && AllSpace(line[..pad]) && line[pad..] == w + rest
    requires w != [] && NoSpace(w) && (rest == [] || IsSpace(rest[0]))
    ensures ColumnName(line) == StripBy(w, IsComma)
  {
    assert line == line[..pad] + (w + rest);
    WordsStrip(line);
    WordsSpacePrefix(line[..pad], w + rest);
    WordsFirst(w, rest);
    StripTrimmed(w);
  }

  /** The test a first word must pass to be listed as a column. */
  predicate IsColumnToken(col: string) {
    col != [] && !StartsWith(col, "--") && Lower(col) !in Structural
  }

  /** A `name:` entry: a stripped name without `(` or line break, then `:`. */
  predicate IsTableEntry(e: string) {
    && |e| >= 1 && e[|e| - 1] == ':'
    && Strip(e[..|e| - 1]) == e[..|e| - 1]
    && '(' !in e[..|e| - 1]
    && '\n' !in e
  }

  /** A column entry: two spaces, then a column name that passed the test
      and has no whitespace and no comma at either end. */
  predicate IsColumnEntry(e: string) {
    && |e| >= 3 && e[..2] == "  "
    && IsColumnToken(e[2..]) && NoSpace(e[2..])
    && e[2] != ',' && e[|e| - 1] != ','
  }

  /** What the scan remembers: `current_table` and `tables_info`. */
  datatype Scan = Scan(current: Option<string>, entries: seq<string>)

  /** One iteration of the scanning loop. */
  function Step(st: Scan, line: string): Scan {
    if Contains(line, CreateTable) then
      var name := TableName(line);
      Scan(Some(name), st.entries + [name + ":"])
    else if IsOpen(st.current) && HasTypeKeyword(line) then
      var col := ColumnName(line);
      if IsColumnToken(col) then Scan(st.current, st.entries + ["  " + col]) else st
    else if Contains(line, TableEnd) then
      Scan(None, st.entries)
    else
      st
  }

  /** The scan after the given lines, from no table and no entries. */
  function ScanLines(lines: seq<string>): Scan {
    if lines == [] then Scan(None, [])
    else Step(ScanLines(lines[..|lines| - 1]), lines[|lines| - 1])
  }

  /** `schema.split('\n')` */
  function Lines(schema: string): (lines: seq<string>)
    ensures forall k :: 0 <= k < |lines| ==> '\n' !in lines[k]
  {
    var lines := Split(schema, "\n");
    SplitPieces(schema, "\n");
    assert forall k :: 0 <= k < |lines| ==> !Contains(lines[k], ['\n']);
    forall k | 0 <= k < |lines|
      ensures '\n' !in lines[k]
    {
      ContainsChar(lines[k], '\n');
    }
    lines
  }

  /** `tables_info[:80]`: the first 80 entries of the scan, or all of them. */
  function Digest(schema: string): (d: seq<string>)
    ensures |d| <= MaxEntries && |d| <= |ScanLines(Lines(schema)).entries|
    ensures d == ScanLines(Lines(schema)).entries[..|d|]
    ensures |d| < MaxEntries ==> d == ScanLines(Lines(schema)).entries
  {
    var entries := ScanLines(Lines(schema)).entries;
    if |entries| <= MaxEntries then entries else entries[..MaxEntries]
  }

  /** `'\n'.join(tables_info[:80])`, the text put into the prompt. */
  function Summary(schema: string): string {
    Join("\n", Digest(schema))
  }

  /** The scanning loop of `generate_sql`. */
  method SummarizeSchema(schema: string) returns (digest: seq<string>)
    ensures digest == Digest(schema)
    ensures |digest| <= MaxEntries
    ensures forall k :: 0 <= k < |digest| ==> IsTableEntry(digest[k]) || IsColumnEntry(digest[k])
  {
    var lines := Lines(schema);
    var tablesInfo: seq<string> := [];
    var currentTable: Option<string> := None;
    for i := 0 to |lines|
      invariant Scan(currentTable, tablesInfo) == ScanLines(lines[..i])
    {
      var line := lines[i];
      assert lines[..i + 1][..i] == lines[..i];
      if Contains(line, CreateTable) {
        var tableName := TableName(line);
        currentTable := Some(tableName);
        tablesInfo := tablesInfo + [tableName + ":"];
      } else if IsOpen(currentTable) && HasTypeKeyword(line) {
        var col := ColumnName(line);
        if IsColumnToken(col) {
          tablesInfo := tablesInfo + ["  " + col];
        }
      } else if Contains(line, TableEnd) {
        currentTable := None;
      }
    }
    assert lines[..|lines|] == lines;
    digest := if |tablesInfo| <= MaxEntries then tablesInfo else tablesInfo[..MaxEntries];
    DigestWellFormed(schema);
  }

  // ---------------------------------------------------------------- properties

  /** A column entry never reads as a table entry. */
  lemma {:induction false} EntryKindsDisjoint(e: string)
    ensures !(IsTableEntry(e) && IsColumnEntry(e))
  {
    if |e| >= 3 && e[..2] == "  " {
      var x := e[..|e| - 1];
      assert x[0] == ' ';
      var r := Strip(x);
      StripByShape(x, IsSpace);
      if r != [] {
        assert r[0] != x[0];
      }
    }
  }

  /** Every entry is a table entry or a column entry. */
  predicate WellFormed(entries: seq<string>) {
    forall k :: 0 <= k < |entries| ==> IsTableEntry(entries[k]) || IsColumnEntry(entries[k])
  }

  /** One line of the schema keeps the entries well formed. */
  lemma {:induction false} StepWellFormed(st: Scan, line: string)
    requires WellFormed(st.entries) && '\n' !in line
    ensures WellFormed(Step(st, line).entries)
  {
    if Contains(line, CreateTable) {
      var name := TableName(line);
      var e := name + ":";
      assert e[..|e| - 1] == name;
      assert IsTableEntry(e);
      assert Step(st, line).entries == st.entries + [e];
    } else if IsOpen(st.current) && HasTypeKeyword(line) {
      var col := ColumnName(line);
      var e := "  " + col;
      assert e[2..] == col;
      if IsColumnToken(col) {
        assert IsColumnEntry(e);
        assert Step(st, line).entries == st.entries + [e];
      }
    }
  }

  /** Every entry of the scan is a table entry or a column entry. */
  lemma {:induction false} ScanWellFormed(lines: seq<string>)
    requires forall k :: 0 <= k < |lines| ==> '\n' !in lines[k]
    ensures WellFormed(ScanLines(lines).entries)
  {
    if lines != [] {
      ScanWellFormed(lines[..|lines| - 1]);
      StepWellFormed(ScanLines(lines[..|lines| - 1]), lines[|lines| - 1]);
    }
  }

  /** Every entry of the digest is a table entry or a column entry. */
  lemma {:induction false} DigestWellFormed(schema: string)
    ensures forall k :: 0 <= k < |Digest(schema)| ==>
      IsTableEntry(Digest(schema)[k]) || IsColumnEntry(Digest(schema)[k])
  {
    var lines := Lines(schema);
    ScanWellFormed(lines);
    var e := ScanLines(lines).entries;
    var d := Digest(schema);
    assert forall k :: 0 <= k < |d| ==> d[k] == e[k];
  }

  /** Index of the last table entry in `entries`, if there is one. */
  function LastHeader(entries: seq<string>): (r: Option<nat>)
    ensures r.Some? ==> r.value < |entries| && IsTableEntry(entries[r.value])
    ensures r.Some? ==> forall m :: r.value < m < |entries| ==> !IsTableEntry(entries[m])
    ensures r.None? ==> forall m :: 0 <= m < |entries| ==> !IsTableEntry(entries[m])
  {
    if entries == [] then None
    else if IsTableEntry(entries[|entries| - 1]) then Some(|entries| - 1)
    else LastHeader(entries[..|entries| - 1])
  }

  /** Each column entry comes after a table entry with a non-empty name,
      with only column entries in between. */
  predicate ColumnsHeaded(e: seq<string>) {
    forall j :: 0 <= j < |e| && IsColumnEntry(e[j]) ==>
      LastHeader(e[..j]).Some? && |e[LastHeader(e[..j]).value]| >= 2
  }

  /** The scan's state: an open table is the one of the last table entry,
      and columns are headed. */
  predicate Headed(st: Scan) {
    && (IsOpen(st.current) ==>
         LastHeader(st.entries).Some? && st.entries[LastHeader(st.entries).value] == st.current.value + ":")
    && ColumnsHeaded(st.entries)
  }

  /** Appending an entry keeps the earlier prefixes. */
  lemma {:induction false} AppendPrefixes(e: seq<string>, x: string)
    ensures forall j :: 0 <= j <= |e| ==> (e + [x])[..j] == e[..j]
    ensures (e + [x])[|e|] == x
  {
  }

  /** `name:` is a table entry for a stripped name without `(` or line break. */
  lemma {:induction false} HeaderEntry(name: string)
    requires Strip(name) == name && '(' !in name && '\n' !in name
    ensures IsTableEntry(name + ":") && !IsColumnEntry(name + ":")
  {
    var h := name + ":";
    assert h[..|h| - 1] == name;
    EntryKindsDisjoint(h);
  }

  /** Appending a table entry leaves earlier columns headed. */
  lemma {:induction false} AppendHeaderHeaded(e: seq<string>, h: string)
    requires ColumnsHeaded(e) && IsTableEntry(h) && !IsColumnEntry(h)
    ensures ColumnsHeaded(e + [h])
    ensures LastHeader(e + [h]) == Some(|e|)
  {
    AppendPrefixes(e, h);
    var e' := e + [h];
    forall j | 0 <= j < |e'| && IsColumnEntry(e'[j])
      ensures LastHeader(e'[..j]).Some? && |e'[LastHeader(e'[..j]).value]| >= 2
    {
      assert e'[..j] == e[..j];
      assert e'[LastHeader(e[..j]).value] == e[LastHeader(e[..j]).value];
    }
  }

  /** A column entry of the open table keeps the scan headed. */
  lemma {:induction false} AppendColumnHeaded(st: Scan, c: string)
    requires Headed(st) && IsOpen(st.current) && IsColumnEntry(c)
    ensures Headed(Scan(st.current, st.entries + [c]))
  {
    var e := st.entries;
    EntryKindsDisjoint(c);
    AppendPrefixes(e, c);
    var e' := e + [c];
    assert e'[..|e'| - 1] == e;
    assert LastHeader(e') == LastHeader(e);
    var h := LastHeader(e).value;
    assert e'[h] == e[h];
    forall j | 0 <= j < |e'| && IsColumnEntry(e'[j])
      ensures LastHeader(e'[..j]).Some? && |e'[LastHeader(e'[..j]).value]| >= 2
    {
      assert e'[..j] == e[..j];
      if j < |e| {
        assert e'[LastHeader(e[..j]).value] == e[LastHeader(e[..j]).value];
      }
    }
  }

  /** One line of the schema keeps the scan headed. */
  lemma {:induction false} StepHeaded(st: Scan, line: string)
    requires Headed(st) && '\n' !in line
    ensures Headed(Step(st, line))
  {
    if Contains(line, CreateTable) {
      var name := TableName(line);
      HeaderEntry(name);
      AppendHeaderHeaded(st.entries, name + ":");
    } else if IsOpen(st.current) && HasTypeKeyword(line) {
      var col := ColumnName(line);
      if IsColumnToken(col) {
        var c := "  " + col;
        assert c[2..] == col;
        AppendColumnHeaded(st, c);
      }
    }
  }

  /** A table is open only under a `name:` entry for it, and every column
      entry comes after a table entry with a non-empty name, with only
      column entries in between. */
  lemma {:induction false} ScanHeaded(lines: seq<string>)
    requires forall k :: 0 <= k < |lines| ==> '\n' !in lines[k]
    ensures Headed(ScanLines(lines))
  {
    if lines != [] {
      ScanHeaded(lines[..|lines| - 1]);
      StepHeaded(ScanLines(lines[..|lines| - 1]), lines[|lines| - 1]);
    }
  }

  /** The digest starts with a table entry, and each of its column entries
      comes after a table entry with a non-empty name, with only column
      entries in between: the columns are listed under their table. */
  lemma {:induction false} DigestHeaded(schema: string)
    ensures ColumnsHeaded(Digest(schema))
    ensures Digest(schema) != [] ==> IsTableEntry(Digest(schema)[0])
  {
    var lines := Lines(schema);
    ScanHeaded(lines);
    ScanWellFormed(lines);
    var e := ScanLines(lines).entries;
    var d := Digest(schema);
    assert forall j :: 0 <= j <= |d| ==> d[..j] == e[..j];
    assert forall j :: 0 <= j < |d| ==> d[j] == e[j];
    if d != [] {
      assert d[..0] == [];
    }
  }

  /** `name:` entries are emitted for `CREATE TABLE` lines and column entries
      only for a line that is not one, while a table is open, when the line
      mentions a type keyword and its first word passes the column test. */
  lemma {:induction false} ColumnRule(st: Scan, line: string)
    ensures var next := Step(st, line);
      (|next.entries| == |st.entries| + 1 && IsColumnEntry(next.entries[|st.entries|]))
      <==>
      (!Contains(line, CreateTable) && IsOpen(st.current) && HasTypeKeyword(line) && IsColumnToken(ColumnName(line)))
    ensures Contains(line, CreateTable) ==>
      Step(st, line) == Scan(Some(TableName(line)), st.entries + [TableName(line) + ":"])
  {
    var next := Step(st, line);
    if Contains(line, CreateTable) {
      var e := TableName(line) + ":";
      assert e[..|e| - 1] == TableName(line);
      EntryKindsDisjoint(e);
    } else if IsOpen(st.current) && HasTypeKeyword(line) && IsColumnToken(ColumnName(line)) {
      var c := "  " + ColumnName(line);
      assert c[2..] == ColumnName(line);
    }
  }

  /** A line of an open table that mentions a type keyword keeps the table
      open, even when it also holds `);`. */
  lemma {:induction false} TypeLineKeepsTable(st: Scan, line: string)
    requires IsOpen(st.current) && HasTypeKeyword(line) && !Contains(line, CreateTable)
    ensures Step(st, line).current == st.current
  {
  }

  /** The summary splits back into the digest's entries, one per line. */
  lemma {:induction false} SummaryLines(schema: string)
    requires Digest(schema) != []
    ensures Split(Summary(schema), "\n") == Digest(schema)
  {
    var d := Digest(schema);
    DigestWellFormed(schema);
    forall k | 0 <= k < |d|
      ensures '\n' !in d[k]
    {
      if IsColumnEntry(d[k]) {
        var e := d[k];
        assert e == e[..2] + e[2..];
        assert IsSpace('\n');
      }
    }
    SplitJoin(d, '\n');
  }
}
