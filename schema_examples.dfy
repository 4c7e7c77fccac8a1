/**
 * Worked examples of the schema digest on small schemas.
 */
module SchemaExamples {
  import opened Wrappers
  import opened PyStr
  import opened SchemaDigest

  /** An occurrence makes `sub in s` true. */
  lemma {:induction false} FoundAt(s: string, sub: string, i: nat)
    requires OccursAt(s, sub, i)
    ensures Contains(s, sub)
  {
    FindSpec(s, sub);
  }

  /** A column line: indentation, a word, a blank and more; its column
      name is the word when it has no comma at either end. */
  lemma {:induction false} ColumnNameIs(line: string, pad: nat, w: string, rest: string)
    requires HasTypeKeyword(line)
    requires pad <= |line| && AllSpace(line[..pad]) && line[pad..] == w + rest
    requires w != [] && NoSpace(w) && w[0] != ',' && w[|w| - 1] != ','
    requires rest != [] && IsSpace(rest[0])
    ensures ColumnName(line) == w
  {
    ColumnOfFirstWord(line, pad, w, rest);
    StripByUnique(w, IsComma, 0, |w|);
    assert w[0..|w|] == w;
  }

  lemma {:induction false} IdColumn(line: string)
    requires line == "  id INTEGER,"
    ensures HasTypeKeyword(line) && ColumnName(line) == "id"
  {
    FoundAt(line, "INTEGER", 5);
    assert line[2..] == "id" + " INTEGER,";
    ColumnNameIs(line, 2, "id", " INTEGER,");
  }

  lemma {:induction false} NameColumn(line: string)
    requires line == "  name TEXT,"
    ensures HasTypeKeyword(line) && ColumnName(line) == "name"
  {
    FoundAt(line, "TEXT", 7);
    assert line[2..] == "name" + " TEXT,";
    ColumnNameIs(line, 2, "name", " TEXT,");
  }

  /** In the comma-first style the leading comma is not part of the name. */
  lemma {:induction false} CommaFirstColumn(line: string)
    requires line == "  ,name TEXT"
    ensures HasTypeKeyword(line) && ColumnName(line) == "name"
  {
    FoundAt(line, "TEXT", 8);
    var w := ",name";
    assert line[..2] == "  " && line[2..] == w + " TEXT";
    ColumnOfFirstWord(line, 2, w, " TEXT");
    CommaName(w);
  }

  lemma {:induction false} CommaName(w: string)
    requires w == ",name"
    ensures StripBy(w, IsComma) == "name"
  {
    assert IsComma(w[0]) && !IsComma(w[1]) && !IsComma(w[|w| - 1]);
    StripByUnique(w, IsComma, 1, |w|);
    assert w[1..|w|] == "name";
  }

  /** `CREATE TABLE orders (`, whatever follows it without a `C`, opens
      the table `orders`. */
  lemma {:induction false} OrdersHeader(line: string, rest: string)
    requires line == "CREATE TABLE orders (" + rest && 'C' !in rest
    ensures Contains(line, CreateTable) && TableName(line) == "orders"
  {
    OrdersAfterKeyword(line, rest);
    assert (" orders (" + rest)[..9] == " orders (";
    OrdersBeforeParen(" orders (" + rest);
    OrdersName(" orders ");
  }

  lemma {:induction false} OrdersAfterKeyword(line: string, rest: string)
    requires line == "CREATE TABLE orders (" + rest && 'C' !in rest
    ensures Contains(line, CreateTable) && Split(line, CreateTable)[1] == " orders (" + rest
  {
    assert line[0..12] == CreateTable;
    FoundAt(line, CreateTable, 0);
    SplitFirst(line, CreateTable, 0);
    var after := line[12..];
    assert after == " orders (" + rest;
    NoUpperC(after, rest);
    MissingChar(after, CreateTable, 'C');
    assert Split(after, CreateTable) == [after];
  }

  lemma {:induction false} NoUpperC(after: string, rest: string)
    requires after == " orders (" + rest && 'C' !in rest
    ensures 'C' !in after
  {
    assert forall i :: 0 <= i < 9 ==> after[i] == " orders ("[i];
    assert forall i :: 9 <= i < |after| ==> after[i] == rest[i - 9];
  }

  lemma {:induction false} OrdersBeforeParen(after: string)
    requires 9 <= |after| && after[..9] == " orders ("
    ensures Split(after, "(")[0] == " orders "
  {
    assert after[8] == '(' && after[..8] == " orders " && '(' !in after[..8];
    SplitAtFirstChar(after, '(', 8);
  }

  lemma {:induction false} OrdersName(p: string)
    requires p == " orders "
    ensures Strip(p) == "orders"
  {
    StripByUnique(p, IsSpace, 1, 7);
  }

  /** Splitting at the first place a character stands. */
  lemma {:induction false} SplitAtFirstChar(s: string, c: char, i: nat)
    requires i < |s| && s[i] == c && c !in s[..i]
    ensures Split(s, [c])[0] == s[..i]
  {
    forall j | 0 <= j < i
      ensures !OccursAt(s, [c], j)
    {
      assert s[j..j + 1][0] == s[j] == s[..i][j];
    }
    assert s[i..i + 1] == [c];
    SplitFirst(s, [c], i);
  }

  /** A table constraint without a type keyword adds nothing. */
  lemma {:induction false} KeyLine(line: string)
    requires line == "  PRIMARY KEY(id)"
    ensures !Contains(line, CreateTable) && !HasTypeKeyword(line) && !Contains(line, TableEnd)
  {
    KeyLineChars(line);
    MissingChar(line, CreateTable, 'C');
    MissingChar(line, "INTEGER", 'G');
    MissingChar(line, "TEXT", 'T');
    MissingChar(line, "SMALLINT", 'S');
    MissingChar(line, "DECIMAL", 'C');
    MissingChar(line, TableEnd, ';');
  }

  lemma {:induction false} KeyLineChars(line: string)
    requires line == "  PRIMARY KEY(id)"
    ensures 'C' !in line && 'G' !in line && 'T' !in line && 'S' !in line && ';' !in line
  {
  }

  /** `);` closes the table. */
  lemma {:induction false} EndLine(line: string)
    requires line == ");"
    ensures !Contains(line, CreateTable) && !HasTypeKeyword(line) && Contains(line, TableEnd)
  {
    MissingChar(line, CreateTable, 'C');
    MissingChar(line, "INTEGER", 'G');
    MissingChar(line, "TEXT", 'T');
    MissingChar(line, "SMALLINT", 'S');
    MissingChar(line, "DECIMAL", 'C');
    FoundAt(line, TableEnd, 0);
  }

  /** A column line is no `CREATE TABLE` line. */
  lemma {:induction false} NotCreate(line: string)
    requires line == "  id INTEGER," || line == "  name TEXT,"
    ensures !Contains(line, CreateTable)
  {
    MissingChar(line, CreateTable, 'C');
  }

  /** A short word without a leading `--` whose length is no structural
      keyword's passes the column test. */
  lemma {:induction false} ColumnTokenOf(w: string)
    requires w == "id" || w == "name"
    ensures IsColumnToken(w)
  {
    assert w[..2][0] == w[0] != '-';
    assert forall k :: 0 <= k < |Structural| ==> |Structural[k]| != |w|;
    assert |Lower(w)| == |w|;
  }

  /** The scan after one more line. */
  lemma {:induction false} ScanLinesSnoc(lines: seq<string>, line: string)
    ensures ScanLines(lines + [line]) == Step(ScanLines(lines), line)
  {
    assert (lines + [line])[..|lines|] == lines;
  }

  /** No line break in a line of printable characters. */
  lemma {:induction false} NoBreak(line: string)
    requires forall i :: 0 <= i < |line| ==> ' ' <= line[i]
    ensures '\n' !in line
  {
  }

  /** A table definition written over several lines, one column per line. */
  const OrdersLines: seq<string> := ["CREATE TABLE orders (", "  id INTEGER,", "  name TEXT,", "  PRIMARY KEY(id)", ");"]

  /** The schema text splits back into its lines. */
  lemma {:induction false} OrdersLinesSplit(schema: string)
    requires schema == Join("\n", OrdersLines)
    ensures Lines(schema) == OrdersLines
  {
    OrdersLinesUnbroken();
    SplitJoin(OrdersLines, '\n');
  }

  lemma {:induction false} OrdersLinesUnbroken()
    ensures forall k :: 0 <= k < |OrdersLines| ==> '\n' !in OrdersLines[k]
  {
    forall k | 0 <= k < |OrdersLines|
      ensures '\n' !in OrdersLines[k]
    {
      NoBreak(OrdersLines[k]);
    }
  }

  const OrdersHeaded: Scan := Scan(Some("orders"), ["orders:"])
  const OrdersWithId: Scan := Scan(Some("orders"), ["orders:", "  id"])
  const OrdersWithName: Scan := Scan(Some("orders"), ["orders:", "  id", "  name"])

  lemma {:induction false} StepOrders0(line: string)
    requires line == "CREATE TABLE orders ("
    ensures Step(Scan(None, []), line) == OrdersHeaded
  {
    assert line == "CREATE TABLE orders (" + "";
    OrdersHeader(line, "");
    StepCreate(Scan(None, []), line, "orders");
    assert "orders" + ":" == "orders:";
  }

  lemma {:induction false} StepOrders1(line: string)
    requires line == "  id INTEGER,"
    ensures Step(OrdersHeaded, line) == OrdersWithId
  {
    IdColumn(line);
    NotCreate(line);
    ColumnTokenOf("id");
    assert "  " + "id" == "  id";
    assert OrdersHeaded.entries + ["  id"] == OrdersWithId.entries;
  }

  lemma {:induction false} StepOrders2(line: string)
    requires line == "  name TEXT,"
    ensures Step(OrdersWithId, line) == OrdersWithName
  {
    NameColumn(line);
    NotCreate(line);
    ColumnTokenOf("name");
    assert "  " + "name" == "  name";
    assert OrdersWithId.entries + ["  name"] == OrdersWithName.entries;
  }

  lemma {:induction false} StepOrders3(line: string)
    requires line == "  PRIMARY KEY(id)"
    ensures Step(OrdersWithName, line) == OrdersWithName
  {
    KeyLine(line);
  }

  lemma {:induction false} StepOrders4(line: string)
    requires line == ");"
    ensures Step(OrdersWithName, line) == Scan(None, OrdersWithName.entries)
  {
    EndLine(line);
  }

  /** A multi-line table definition: the header, then the two typed
      columns; the key constraint has no type keyword and is skipped. */
  lemma {:induction false} OrdersDigest(schema: string)
    requires schema == Join("\n", OrdersLines)
    ensures Digest(schema) == ["orders:", "  id", "  name"]
  {
    OrdersLinesSplit(schema);
    var ls := Lines(schema);
    assert ls == [ls[0], ls[1], ls[2], ls[3], ls[4]];
    ScanOrders(ls[0], ls[1], ls[2], ls[3], ls[4]);
  }

  /** The scan over the lines, one step at a time. */
  lemma {:induction false} ScanOrders(l0: string, l1: string, l2: string, l3: string, l4: string)
    requires l0 == "CREATE TABLE orders (" && l1 == "  id INTEGER," && l2 == "  name TEXT,"
    requires l3 == "  PRIMARY KEY(id)" && l4 == ");"
    ensures ScanLines([l0, l1, l2, l3, l4]) == Scan(None, OrdersWithName.entries)
  {
    ScanOrdersColumns(l0, l1, l2);
    StepOrders3(l3);
    StepOrders4(l4);
    ScanLinesSnoc([l0, l1, l2], l3);
    assert [l0, l1, l2] + [l3] == [l0, l1, l2, l3];
    ScanLinesSnoc([l0, l1, l2, l3], l4);
    assert [l0, l1, l2, l3] + [l4] == [l0, l1, l2, l3, l4];
  }

  lemma {:induction false} ScanOrdersColumns(l0: string, l1: string, l2: string)
    requires l0 == "CREATE TABLE orders (" && l1 == "  id INTEGER," && l2 == "  name TEXT,"
    ensures ScanLines([l0, l1, l2]) == OrdersWithName
  {
    StepOrders0(l0);
    StepOrders1(l1);
    StepOrders2(l2);
    ScanLinesSnoc([], l0);
    assert [] + [l0] == [l0];
    ScanLinesSnoc([l0], l1);
    assert [l0] + [l1] == [l0, l1];
    ScanLinesSnoc([l0, l1], l2);
    assert [l0, l1] + [l2] == [l0, l1, l2];
  }

  /** The same table on one line: the line holds `CREATE TABLE`, so only
      the table entry is made; its columns are not listed. */
  lemma {:induction false} OneLineDigest(schema: string)
    requires schema == "CREATE TABLE orders (id INTEGER, name TEXT);"
    ensures Digest(schema) == ["orders:"]
  {
    OneLineLines(schema);
    var rest := OneLineRest(schema);
    OrdersLineScan(schema, rest);
  }

  /** A single line that opens `orders` leaves only its table entry. */
  lemma {:induction false} OrdersLineScan(line: string, rest: string)
    requires line == "CREATE TABLE orders (" + rest && 'C' !in rest
    ensures ScanLines([line]) == OrdersHeaded
  {
    OrdersHeader(line, rest);
    StepCreate(Scan(None, []), line, "orders");
    assert "orders" + ":" == "orders:";
    ScanLinesSnoc([], line);
    assert [] + [line] == [line];
  }

  lemma {:induction false} OneLineLines(schema: string)
    requires schema == "CREATE TABLE orders (id INTEGER, name TEXT);"
    ensures Lines(schema) == [schema]
  {
    NoBreak(schema);
    MissingChar(schema, "\n", '\n');
  }

  lemma {:induction false} OneLineRest(schema: string) returns (rest: string)
    requires schema == "CREATE TABLE orders (id INTEGER, name TEXT);"
    ensures schema == "CREATE TABLE orders (" + rest && 'C' !in rest
  {
    rest := schema[21..];
    assert schema[..21] == "CREATE TABLE orders (";
    assert schema == schema[..21] + rest;
    assert forall i :: 0 <= i < |rest| ==> rest[i] == schema[21 + i] != 'C';
  }

  /** A `CREATE TABLE` line opens its table and adds its entry. */
  lemma {:induction false} StepCreate(st: Scan, line: string, name: string)
    requires Contains(line, CreateTable) && TableName(line) == name
    ensures Step(st, line) == Scan(Some(name), st.entries + [name + ":"])
  {
  }
}
