/**
 * The remote script: its command-line check, which only lets a query
 * through when its stripped, upper-cased text starts with `SELECT`, and the
 * text table it prints for a result set. The database itself is not
 * modelled: a result set is given as column names and rows of cells, a
 * missing cell (`None`) standing for SQL NULL.
 */
module QueryRunner {
  import opened PyStr
  import opened Wrappers

  const UsageLines: seq<string> := [
    "Usage: python3 ilab_script.py 'SELECT query'",
    "Example: python3 ilab_script.py 'SELECT COUNT(*) FROM application'"
  ]
  const RejectionLine: string := "Error: Only SELECT queries are allowed"
  const ColumnSeparator: string := " | "
  const NullText: string := "NULL"
  const NoRowsLine: string := "(No rows returned)"

  // ---------------------------------------------------------------- the guard

  /** `query.strip().upper().startswith('SELECT')` */
  predicate IsSelectQuery(query: string) {
    StartsWith(Upper(Strip(query)), "SELECT")
  }

  /** What the script does with its arguments: exit with a status and lines
      on standard error, or run the query. */
  datatype Outcome = Exit(status: int, stderr: seq<string>) | Execute(query: string)

  /** The `__main__` block: `argv[0]` is the script, `argv[1]` the query. */
  function Dispatch(argv: seq<string>): (o: Outcome)
    ensures o.Exit? ==> o.status == 1
    ensures o.Execute? <==> |argv| >= 2 && IsSelectQuery(argv[1])
    ensures o.Execute? ==> o.query == argv[1]
    ensures |argv| < 2 ==> o == Exit(1, UsageLines)
    ensures |argv| >= 2 && !IsSelectQuery(argv[1]) ==> o == Exit(1, [RejectionLine])
  {
    if |argv| < 2 then Exit(1, UsageLines)
    else if !IsSelectQuery(argv[1]) then Exit(1, [RejectionLine])
    else Execute(argv[1])
  }

  /** The guard, read off the query itself: after the leading whitespace
      come six characters that spell `SELECT` in any mix of cases. Nothing
      is required of what follows. */
  predicate SpellsSelectAfterIndent(query: string) {
    var k := LeadingRun(query, IsSpace);
    k + 6 <= |query| && Upper(query[k..k + 6]) == "SELECT"
  }

  lemma {:induction false} SelectMeaning(query: string)
    ensures IsSelectQuery(query) <==> SpellsSelectAfterIndent(query)
  {
    if IsSelectQuery(query) {
      SelectSpelled(query);
    }
    if SpellsSelectAfterIndent(query) {
      SpelledSelect(query);
    }
  }

  lemma {:induction false} SelectSpelled(query: string)
    requires IsSelectQuery(query)
    ensures SpellsSelectAfterIndent(query)
  {
    var k := LeadingRun(query, IsSpace);
    var r := Strip(query);
    assert r == query[k..k + |r|];
    forall i | 0 <= i < 6
      ensures UpperChar(r[i]) == "SELECT"[i]
    {
      assert Upper(r)[i] == Upper(r)[..6][i];
    }
    assert forall i :: 0 <= i < 6 ==> r[i] == query[k + i];
    assert Upper(query[k..k + 6]) == "SELECT";
  }

  lemma {:induction false} SpelledSelect(query: string)
    requires SpellsSelectAfterIndent(query)
    ensures IsSelectQuery(query)
  {
    var k := LeadingRun(query, IsSpace);
    var w := query[k..];
    forall i | 0 <= i < 6
      ensures !IsSpace(w[i]) && UpperChar(w[i]) == "SELECT"[i]
    {
      assert Upper(query[k..k + 6])[i] == UpperChar(query[k + i]);
    }
    StripKeepsLead(w, 6);
    StripAfterLead(query);
    SelectOfPrefix(Strip(w), w);
  }

  /** A text that begins like `w`, whose first six letters spell `SELECT`,
      starts with `SELECT` once upper-cased. */
  lemma {:induction false} SelectOfPrefix(r: string, w: string)
    requires 6 <= |r| <= |w| && r == w[..|r|]
    requires forall i :: 0 <= i < 6 ==> UpperChar(w[i]) == "SELECT"[i]
    ensures StartsWith(Upper(r), "SELECT")
  {
    forall i | 0 <= i < 6
      ensures Upper(r)[i] == "SELECT"[i]
    {
      assert r[i] == w[i];
    }
    assert Upper(r)[..6] == "SELECT";
  }

  /** The guard ignores case. */
  lemma {:induction false} SelectIgnoresCase(a: string, b: string)
    requires SameUpToCase(a, b)
    ensures IsSelectQuery(a) <==> IsSelectQuery(b)
  {
    StripSameUpToCase(a, b);
    var x, y := Upper(Strip(a)), Upper(Strip(b));
    assert forall i :: 0 <= i < |x| ==> x[i] == y[i];
    assert x == y;
  }

  /** The guard ignores leading whitespace. */
  lemma {:induction false} SelectIgnoresIndent(w: string, query: string)
    requires AllSpace(w)
    ensures IsSelectQuery(w + query) <==> IsSelectQuery(query)
  {
    StripSpacePrefix(w, query);
  }

  /** An indented lower-case query runs. */
  lemma {:induction false} AcceptsIndentedLowerCase(q: string)
    requires q == "  select x"
    ensures Dispatch(["ilab_script.py", q]) == Execute(q)
  {
    LeadingRunIs(q, IsSpace, 2);
    assert Upper(q[2..8]) == "SELECT";
    SpelledSelect(q);
  }

  /** `SELECTx FROM t` runs too, although it is no SELECT statement: the
      check is on text, not on syntax. */
  lemma {:induction false} AcceptsSelectPrefixedWord(q: string)
    requires q == "SELECTx FROM t"
    ensures Dispatch(["ilab_script.py", q]) == Execute(q)
  {
    LeadingRunIs(q, IsSpace, 0);
    assert Upper(q[0..6]) == "SELECT";
    SpelledSelect(q);
  }

  /** A DELETE is refused with exit status 1. */
  lemma {:induction false} RejectsDelete(q: string)
    requires q == "DELETE FROM application"
    ensures Dispatch(["ilab_script.py", q]) == Exit(1, [RejectionLine])
  {
    LeadingRunIs(q, IsSpace, 0);
    assert Upper(q[0..6])[0] == 'D';
    SelectMeaning(q);
  }

  // ---------------------------------------------------------------- the table

  /** A cell as printed: its text, or `NULL` for a missing value. */
  function CellText(cell: Option<string>): string {
    match cell
    case None => NullText
    case Some(text) => text
  }

  /** One row as printed: its cells joined by ` | `. */
  function RowLine(row: seq<Option<string>>): string {
    Join(ColumnSeparator, seq(|row|, i requires 0 <= i < |row| => CellText(row[i])))
  }

  /** `n` copies of `c`. */
  function Repeat(c: char, n: nat): (s: string)
    ensures |s| == n && forall i :: 0 <= i < n ==> s[i] == c
  {
    seq(n, _ => c)
  }

  /** The body of `execute_query` from the fetched result to the last print:
      the lines it writes to standard output, in order. */
  method RenderTable(colnames: seq<string>, rows: seq<seq<Option<string>>>) returns (out: seq<string>)
    ensures |out| == 4 + (if |rows| == 0 then 1 else |rows|)
    ensures out[1] == Join(ColumnSeparator, colnames)
    ensures out[0] == Repeat('-', |out[1]|) && out[2] == out[0] && out[|out| - 1] == out[0]
    ensures |rows| == 0 ==> out[3] == NoRowsLine
    ensures forall i :: 0 <= i < |rows| ==> out[3 + i] == RowLine(rows[i])
  {
    var header := Join(ColumnSeparator, colnames);
    var separator := Repeat('-', |header|);
    out := [separator, header, separator];
    if |rows| > 0 {
      for i := 0 to |rows|
        invariant |out| == 3 + i
        invariant out[0] == separator && out[1] == header && out[2] == separator
        invariant forall j :: 0 <= j < i ==> out[3 + j] == RowLine(rows[j])
      {
        out := out + [RowLine(rows[i])];
      }
    } else {
      out := out + [NoRowsLine];
    }
    out := out + [separator];
  }
}
