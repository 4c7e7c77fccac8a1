# Text-to-SQL over SSH: a verified model of its string routines

The system turns a question in English into a SQL query with a local
language model, runs the query on a remote PostgreSQL host over SSH, and
prints the result. Two Python files hold the logic modelled here:

- `database_llm.py` builds a short schema digest for the prompt, cleans the
  model's completion into one SELECT statement, quotes that statement into
  a shell command line, and picks the text to show from what the command
  printed.
- `ilab_script.py`, on the remote host, refuses anything that does not
  look like a SELECT and prints the result set as a text table.

The Dafny modules follow those routines:

| module | file | what it holds |
|---|---|---|
| `Wrappers` | `wrappers.dfy` | `Option` |
| `PyStr` | `pystr.dfy` | the Python `str` methods the routines use: `strip`, `split`, `join`, `split()` on whitespace, `upper`, `lower`, `in`, `startswith`, `endswith`, with their properties |
| `SchemaDigest` | `schema_digest.dfy` | the line scanner of `generate_sql` as a method with a loop, proved against the specification function `Digest` |
| `SchemaExamples` | `schema_examples.dfy` | the digest of two concrete schemas |
| `SqlCleanup` | `sql_cleanup.dfy` | the completion cleanup as a method that reassigns one text, proved against the specification function `Cleanup` |
| `RemoteClient` | `remote_client.dfy` | quoting, the command line, output selection, and a reader for the POSIX shell words the command line uses |
| `QueryRunner` | `query_runner.dfy` | the remote script's argument check and its table printer |
| `Pipeline` | `pipeline.dfy` | the end-to-end property: whatever the model answers, the remote script runs exactly the cleaned query |

`Strip` and `Words` remove exactly the characters for which Python's
`str.isspace()` holds; `Upper` and `Lower` map ASCII letters only.

## Model

| member | source | states |
|---|---|---|
| `PyStr.StripByShape` | database_llm.py:93 | a stripped text is the slice between the leading and the trailing whitespace run, and only whitespace lies outside it |
| `PyStr.StripByUnique` | database_llm.py:93 | any slice with only whitespace outside it and non-whitespace at both ends is the stripped text |
| `PyStr.StripStripped` | database_llm.py:93 | stripping twice gives what stripping once gives |
| `PyStr.StripEmptyIffBlank` | database_llm.py:98 | the stripped text is empty exactly when the text is all whitespace |
| `PyStr.StripSpacePrefix` | ilab_script.py:95 | leading whitespace does not change the stripped text |
| `PyStr.FindSpec` | database_llm.py:105-106 | `Find` returns the first occurrence of the substring, and none when it does not occur |
| `PyStr.SplitPieces` | database_llm.py:106 | no piece of `split(sep)` contains `sep` |
| `PyStr.SplitFirst` | database_llm.py:106 | the first piece of `split(sep)` is the text before the first occurrence of `sep` |
| `PyStr.JoinSplit` | database_llm.py:29 | joining the pieces of `split(sep)` with `sep` gives back the text |
| `PyStr.SplitJoin` | database_llm.py:42 | splitting a join on a one-character separator that no part contains gives back the parts |
| `PyStr.WordsShape` | database_llm.py:35 | every word of `split()` is non-empty and holds no whitespace |
| `PyStr.CollapseMeaning` | database_llm.py:117 | `' '.join(s.split())` is single-spaced, without whitespace at either end, keeps every non-whitespace character in order, and has exactly the words of `s`: no two words are run together |
| `PyStr.WordsJoin` | database_llm.py:117 | splitting non-empty blank-free words joined by single spaces gives back those words |
| `PyStr.CollapseUnique` | database_llm.py:117 | any single-spaced text without whitespace at either end that has the words of `s` is the collapse of `s` |
| `PyStr.CollapseSnoc` | database_llm.py:113-117 | a `;` appended to a text ending in a non-blank character stays attached to its last word through the collapse |
| `PyStr.WordsStrip` | database_llm.py:35 | stripping before `split()` does not change the words |
| `PyStr.CollapseCollapsed` | database_llm.py:117 | collapsing an already collapsed text changes nothing |
| `PyStr.NonSpaceStrip` | database_llm.py:93 | stripping removes no non-whitespace character |
| `PyStr.NonSpaceWords` | database_llm.py:117 | the words of a text, concatenated, are its non-whitespace characters |
| `PyStr.StripSameUpToCase` | ilab_script.py:95 | texts that differ only in letter case strip to texts that differ only in letter case |
| `SchemaDigest.TableName` | database_llm.py:31 | the table name is stripped, holds no `(`, and every character of it comes from the line |
| `SchemaDigest.TableNameBetween` | database_llm.py:31 | for a line `p CREATE TABLE m ( q` whose first keyword follows `p`, with no `(` and no keyword in `m`, the table name is `m` stripped |
| `SchemaDigest.ColumnName` | database_llm.py:35 | the column token holds no whitespace and has no comma at either end |
| `SchemaDigest.ColumnOfFirstWord` | database_llm.py:35 | the column name is the line's first word with the commas at either end stripped |
| `SchemaDigest.Lines` | database_llm.py:29 | no line of `split('\n')` holds a line break |
| `SchemaDigest.Digest` | database_llm.py:42 | the digest is the first 80 entries of the scan, or all of them when there are fewer |
| `SchemaDigest.SummarizeSchema` | database_llm.py:26-42 | the loop over the lines computes `Digest`: at most 80 entries, each a table entry or a column entry |
| `SchemaDigest.EntryKindsDisjoint` | database_llm.py:33-37 | no entry reads both as `name:` and as `  col` |
| `SchemaDigest.StepWellFormed` | database_llm.py:30-39 | one line of the loop keeps every entry a table entry or a column entry |
| `SchemaDigest.DigestWellFormed` | database_llm.py:29-42 | every digest entry is `<name>:` (a stripped name without `(`) or two spaces and a column token that is non-empty, does not start with `--` and is no structural keyword in any case |
| `SchemaDigest.LastHeader` | database_llm.py:33 | the index found is that of the last `name:` entry, and none means there is no such entry |
| `SchemaDigest.StepHeaded` | database_llm.py:30-39 | one line of the loop keeps every column entry below a `name:` entry |
| `SchemaDigest.DigestHeaded` | database_llm.py:29-42 | every column entry of the digest comes after some table entry, and a non-empty digest starts with a table entry |
| `SchemaDigest.ColumnRule` | database_llm.py:30-37 | a line adds a column entry exactly when it is no `CREATE TABLE` line, a table is open, the line mentions a type keyword and its first token passes the column test; a `CREATE TABLE` line opens its table and adds `name:` |
| `SchemaDigest.TypeLineKeepsTable` | database_llm.py:34-39 | a type-bearing line of an open table does not close it, even when it holds `);` |
| `SchemaDigest.SummaryLines` | database_llm.py:42 | the summary text splits back on line breaks into the digest's entries |
| `SchemaExamples.OrdersDigest` | database_llm.py:26-42 | a table written one column per line, with a `PRIMARY KEY` line, digests to `orders:`, `  id`, `  name` |
| `SchemaExamples.OneLineDigest` | database_llm.py:26-42 | a table written on one line digests to `orders:` alone: its columns are not listed |
| `SchemaExamples.CommaFirstColumn` | database_llm.py:34-35 | in the comma-first style `,name TEXT` the column name is `name` |
| `SqlCleanup.AddSelect` | database_llm.py:109-110 | the result starts with `SELECT` in any case; it is the text itself exactly when the text already starts with `SELECT`, and `SELECT ` in front of it otherwise |
| `SqlCleanup.AddSemicolon` | database_llm.py:113-114 | the result ends with `;`; it is the text itself exactly when the text already ends with `;`, and the text with `;` appended otherwise |
| `SqlCleanup.CutSeparators` | database_llm.py:104-106 | the loop over the seven separators, in order, computes `CutAll` |
| `SqlCleanup.CleanCompletion` | database_llm.py:93-123 | the step-by-step cleanup computes `Cleanup`, and its result is non-empty, starts with `SELECT` and is collapsed |
| `SqlCleanup.BlankGivesDefault` | database_llm.py:93-100 | a completion that is all whitespace gives `SELECT COUNT(*) FROM application` |
| `SqlCleanup.DefaultShape` | database_llm.py:100 | the default query is non-empty, starts with `SELECT` and is collapsed |
| `SqlCleanup.CutAtPiece` | database_llm.py:105-106 | one separator step keeps a slice of its input |
| `SqlCleanup.CutAllAvoids` | database_llm.py:104-106 | after the loop, the text holds none of the separators already applied |
| `SqlCleanup.CutAllPrefix` | database_llm.py:93-106 | the text after the loop is the stripped prefix of the raw completion, up to some position |
| `SqlCleanup.CutAllNone` | database_llm.py:104-106 | a text holding no separator passes the loop unchanged |
| `SqlCleanup.CleanupShape` | database_llm.py:93-123 | every cleaned query is non-empty, starts with `SELECT` in any case, and has no line break, tab, leading or trailing whitespace or double space |
| `SqlCleanup.OneSemicolonRemoved` | database_llm.py:113-121 | for a non-blank completion, the cleaned query's non-whitespace characters plus one `;` are those of the text after `;` was added when missing: exactly one `;` is removed |
| `SqlCleanup.DropShape` | database_llm.py:120-121 | removing the final `;` of a collapsed SELECT text leaves a non-empty collapsed SELECT text |
| `SqlCleanup.NoSemicolonAdded` | database_llm.py:109-121 | the `;` the cleanup adds is the one it removes: a text without `;` comes out without one |
| `SqlCleanup.NoSemicolonKept` | database_llm.py:93-123 | a completion without `;` gives a cleaned query without `;` |
| `SqlCleanup.CleanupOfClean` | database_llm.py:98-123 | a collapsed SELECT text ending in `;` and holding no separator loses its last `;` and is stripped, nothing else |
| `SqlCleanup.CleanupOfSelect` | database_llm.py:93-123 | a completion that starts with `SELECT` once stripped and holds no separator comes back collapsed, with one final `;` removed when there is one, whatever lines and blanks it spans |
| `SqlCleanup.NotIdempotent` | database_llm.py:113-121 | `SELECT 1;;` cleans to `SELECT 1;`, which cleans to `SELECT 1`: cleaning twice differs from cleaning once |
| `RemoteClient.SelectOutput` | database_llm.py:144-149 | the returned text is never empty, and is the standard output itself whenever there is any |
| `RemoteClient.ErrorRecoverable` | database_llm.py:146-149 | without standard output, non-empty standard error comes back after `Error:\n`, and the marker comes back exactly when both streams are empty |
| `RemoteClient.ErrorInjective` | database_llm.py:146-147 | when there is no standard output, different error texts give different returned texts |
| `RemoteClient.EscapeAppend` | database_llm.py:129 | escaping works character by character |
| `RemoteClient.EscapeNoQuote` | database_llm.py:129 | a text without `'` is left as it is |
| `RemoteClient.ReadQuote` | database_llm.py:129-133 | the shell reads the quoted SQL back as exactly the SQL, continuing the current word |
| `RemoteClient.CommandWords` | database_llm.py:133 | the shell splits the command line into exactly four words: the assignment, `python3`, the script path and the SQL unchanged, whatever characters the SQL holds |
| `QueryRunner.Dispatch` | ilab_script.py:87-97 | with fewer than two arguments the script exits with status 1 and the usage lines; a query the guard refuses exits with status 1 and the error line; otherwise it runs exactly `argv[1]` |
| `QueryRunner.SelectMeaning` | ilab_script.py:95 | the guard passes exactly when six characters spelling `SELECT` in any case follow the leading whitespace |
| `QueryRunner.SelectIgnoresCase` | ilab_script.py:95 | two queries differing only in letter case are both accepted or both refused |
| `QueryRunner.SelectIgnoresIndent` | ilab_script.py:95 | leading whitespace does not change the verdict |
| `QueryRunner.AcceptsIndentedLowerCase` | ilab_script.py:95-99 | `  select x` is run |
| `QueryRunner.AcceptsSelectPrefixedWord` | ilab_script.py:95-99 | `SELECTx FROM t`, which is no SELECT statement, is run too |
| `QueryRunner.RejectsDelete` | ilab_script.py:95-97 | `DELETE FROM application` is refused with status 1 and the error line |
| `QueryRunner.Repeat` | ilab_script.py:60 | the separator has the requested length and holds only that character |
| `QueryRunner.RenderTable` | ilab_script.py:59-72 | the printed lines are: a dash line as long as the header, the column names joined by `ColumnSeparator` (space, bar, space), the dash line, one line per row in row order (cells joined by the same separator, a missing cell as `NULL`) or `(No rows returned)`, and the dash line again |
| `Pipeline.CleanedQueryRuns` | database_llm.py:93-133 | for every completion, the script's `sys.argv` has two entries, `argv[1]` is the cleaned query unchanged, and the script runs it |
| `Pipeline.CleanedQueryPasses` | ilab_script.py:95 | every cleaned query passes the remote script's SELECT check |

## Left out

- The language-model call, its stop list and the prompt template (database_llm.py lines 45-93): the completion is a parameter of `SqlCleanup.Cleanup`.
- The SSH session: connecting, running the command, UTF-8 decoding of its streams and the exception path that returns an SSH error (database_llm.py lines 138-142 and 151 onwards): the two streams are parameters of `RemoteClient.SelectOutput`.
- The database driver, the environment lookups, the login name and the password branch of `execute_query` (ilab_script.py lines 15-56 and 73-84): a result set is given as column names and rows.
- Python's `str()` of a database value: a cell is an `Option<string>`, `None` standing for SQL NULL.
- The interactive loop, the prompts, `sys.exit` and the diagnostic prints to standard error; `QueryRunner.Dispatch` returns the exit status and the error lines instead.
- `PyStr.Upper`, `PyStr.Lower`: ASCII letters only, whereas Python maps all of Unicode (`'ſ'.upper()` is `S`, so Python accepts `ſelect` where the model refuses it).
- `RemoteClient.ShellWords`: reads blanks, backslashes and single quotes, and returns `None` when it meets a double quote, `$`, a backquote, an operator, a glob character, `#` or a line break outside quotes. It does not model tilde expansion or variable assignments: the script path word `~/database_llm_project/ilab_script.py` is read as written although the shell expands its `~`, and `Pipeline.ScriptArgv` drops the `DB_NAME=aas517` word, which the shell puts into the environment. `Pipeline.CleanedQueryRuns` therefore states only the argument count and `argv[1]`, the one argument the script reads.
- The cleanup is not idempotent, and the model does not claim it is: `SqlCleanup.NotIdempotent` shows a completion that changes again on a second pass.
- A `CREATE TABLE` statement written on one line lists no columns in the digest, because its line takes the table branch; `SchemaExamples.OneLineDigest` shows this.
- The separators are applied one after another to the already cut text, so a later separator can only cut further; the model follows that order.
