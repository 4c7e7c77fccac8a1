/**
 * The client side of a remote query (`execute_query_via_ssh`): the SQL is
 * put between single quotes, each single quote in it written as `'\''`,
 * and placed on a shell command line that runs the remote script; of what
 * the command prints, standard output wins, then standard error marked
 * `Error:`, then a fixed marker.
 *
 * To state what the quoting achieves, the module includes a reader for the
 * part of the POSIX shell word syntax the command uses (section 2.2,
 * Quoting, and section 2.3, Token Recognition, of the POSIX.1-2017 Shell
 * Command Language): blanks separate words, a backslash quotes the next
 * character, and single quotes quote everything up to the next single
 * quote. Text with any other shell syntax outside quotes is not read.
 */
module RemoteClient {
  import opened Wrappers
  import opened PyStr

  /** The three words in front of the quoted SQL. */
  const DbAssignment: string := "DB_NAME=aas517"
  const Interpreter: string := "python3"
  const ScriptPath: string := "~/database_llm_project/ilab_script.py"

  const ErrorPrefix: string := "Error:\n"
  const NoOutput: string := "No output received"

  // ---------------------------------------------------------------- quoting

  /** `sql_query.replace("'", "'\\''")`: each single quote closes the quoted
      text, adds a backslash-quoted single quote and opens a new one. */
  function Escape(sql: string): string {
    if sql == [] then []
    else (if sql[0] == '\'' then "'\\''" else [sql[0]]) + Escape(sql[1..])
  }

  /** The SQL as one single-quoted shell word. */
  function Quote(sql: string): string {
    "'" + Escape(sql) + "'"
  }

  /** The command line handed to the remote shell. */
  function Command(sql: string): string {
    DbAssignment + " " + Interpreter + " " + ScriptPath + " " + Quote(sql)
  }

  // ---------------------------------------------------------------- output

  /** What `execute_query_via_ssh` returns for the command's two streams:
      never empty, and the standard output itself whenever there is any. */
  function SelectOutput(stdout: string, stderr: string): (r: string)
    ensures r != []
    ensures stdout != [] ==> r == stdout
  {
    if stdout != [] then stdout
    else if stderr != [] then ErrorPrefix + stderr
    else NoOutput
  }

  /** With no standard output, the error text can be read back from the
      result, and only a silent command gives the marker. */
  lemma {:induction false} ErrorRecoverable(stderr: string)
    ensures stderr != [] ==> StartsWith(SelectOutput([], stderr), ErrorPrefix)
    ensures stderr != [] ==> SelectOutput([], stderr)[|ErrorPrefix|..] == stderr
    ensures SelectOutput([], stderr) == NoOutput <==> stderr == []
  {
    var r := SelectOutput([], stderr);
    if stderr != [] {
      assert r[..|ErrorPrefix|] == ErrorPrefix;
      assert r[0] == 'E' != NoOutput[0];
    }
  }

  /** Different error texts give different results when there is no
      standard output. */
  lemma {:induction false} ErrorInjective(e1: string, e2: string)
    requires SelectOutput([], e1) == SelectOutput([], e2)
    ensures e1 == e2
  {
    ErrorRecoverable(e1);
    ErrorRecoverable(e2);
  }

  // ---------------------------------------------------------------- a shell reader

  /** The characters that separate words. */
  predicate IsBlank(c: char) {
    c == ' ' || c == '\t'
  }

  /** Characters with a meaning to the shell beyond word reading: operators,
      expansions, double quotes, globbing, comments and line ends. */
  predicate IsShellSpecial(c: char) {
    c in "\"$`|&;<>()*?[#\n"
  }

  /** A character that stands for itself outside quotes. */
  predicate IsPlain(c: char) {
    !IsBlank(c) && !IsShellSpecial(c) && c != '\'' && c != '\\'
  }

  /** The words of `s`, appended to the finished words `done`, when `s`
      continues a word `word` (started when `inWord`). `None` for text the
      reader does not cover: other shell syntax, an unterminated single
      quote or a trailing backslash. */
  function ReadFrom(s: string, done: seq<string>, word: string, inWord: bool): Option<seq<string>>
    decreases |s|
  {
    if s == [] then Some(if inWord then done + [word] else done)
    else if IsBlank(s[0]) then
      ReadFrom(s[1..], if inWord then done + [word] else done, [], false)
    else if s[0] == '\'' then
      var n := LeadingRun(s[1..], IsNotQuote);
      if n == |s| - 1 then None
      else ReadFrom(s[n + 2..], done, word + s[1..n + 1], true)
    else if s[0] == '\\' then
      if |s| < 2 || s[1] == '\n' then None
      else ReadFrom(s[2..], done, word + [s[1]], true)
    else if IsShellSpecial(s[0]) then None
    else ReadFrom(s[1..], done, word + [s[0]], true)
  }

  predicate IsNotQuote(c: char) {
    c != '\''
  }

  /** The words the shell makes of a command line. */
  function ShellWords(s: string): Option<seq<string>> {
    ReadFrom(s, [], [], false)
  }

  // ---------------------------------------------------------------- properties

  /** Escaping works character by character. */
  lemma {:induction false} EscapeAppend(a: string, b: string)
    ensures Escape(a + b) == Escape(a) + Escape(b)
    decreases |a|
  {
    if a == [] {
      assert a + b == b;
    } else {
      assert (a + b)[0] == a[0];
      assert (a + b)[1..] == a[1..] + b;
      EscapeAppend(a[1..], b);
    }
  }

  /** Text without a single quote is left as it is. */
  lemma {:induction false} EscapeNoQuote(a: string)
    requires '\'' !in a
    ensures Escape(a) == a
    decreases |a|
  {
    if a != [] {
      assert '\'' !in a[1..];
      EscapeNoQuote(a[1..]);
    }
  }

  /** A run of plain characters extends the current word. */
  lemma {:induction false} ReadPlain(w: string, rest: string, done: seq<string>, word: string, inWord: bool)
    requires forall i :: 0 <= i < |w| ==> IsPlain(w[i])
    ensures ReadFrom(w + rest, done, word, inWord) == ReadFrom(rest, done, word + w, inWord || w != [])
    decreases |w|
  {
    if w == [] {
      assert w + rest == rest;
      assert word + w == word;
    } else {
      assert (w + rest)[0] == w[0];
      assert (w + rest)[1..] == w[1..] + rest;
      ReadPlain(w[1..], rest, done, word + [w[0]], true);
      assert word + [w[0]] + w[1..] == word + w;
    }
  }

  /** A blank ends the current word. */
  lemma {:induction false} ReadBlank(rest: string, done: seq<string>, word: string)
    ensures ReadFrom(" " + rest, done, word, true) == ReadFrom(rest, done + [word], [], false)
  {
    assert (" " + rest)[1..] == rest;
  }

  /** A single-quoted run without quotes extends the current word by that run. */
  lemma {:induction false} ReadQuotedRun(a: string, rest: string, done: seq<string>, word: string, inWord: bool)
    requires '\'' !in a
    ensures ReadFrom("'" + a + "'" + rest, done, word, inWord) == ReadFrom(rest, done, word + a, true)
  {
    var s := "'" + a + "'" + rest;
    var t := s[1..];
    assert t == a + "'" + rest;
    assert t[|a|] == '\'';
    forall i | 0 <= i < |a|
      ensures IsNotQuote(t[i])
    {
      assert t[i] == a[i];
    }
    LeadingRunIs(t, IsNotQuote, |a|);
    var n := |a|;
    assert s[n + 2..] == rest;
    assert s[1..n + 1] == a;
  }

  /** A backslash-quoted single quote extends the current word by a single
      quote. */
  lemma {:induction false} ReadEscapedQuote(rest: string, done: seq<string>, word: string, inWord: bool)
    ensures ReadFrom("\\'" + rest, done, word, inWord) == ReadFrom(rest, done, word + "'", true)
  {
    var s := "\\'" + rest;
    assert s[2..] == rest;
  }

  /** How a quoted SQL text with a single quote in it is laid out: the
      quoted run before that quote, an escaped quote, and the quoted rest. */
  lemma {:induction false} QuoteAtQuote(a: string, b: string, rest: string)
    requires '\'' !in a
    ensures Quote(a + "'" + b) + rest == "'" + a + "'" + ("\\'" + (Quote(b) + rest))
  {
    assert Escape(a + "'" + b) == a + "'\\''" + Escape(b) by {
      EscapeNoQuote(a);
      EscapeAppend(a + "'", b);
      EscapeAppend(a, "'");
      assert Escape("'") == "'\\''";
    }
    var x := Quote(a + "'" + b) + rest;
    var y := "'" + a + "'" + ("\\'" + (Quote(b) + rest));
    assert x == "'" + (a + "'\\''" + Escape(b)) + "'" + rest;
    assert |x| == |y|;
    forall i | 0 <= i < |x|
      ensures x[i] == y[i]
    {
      if i <= |a| + 4 {
      } else {
        assert x[i] == (Escape(b) + "'" + rest)[i - |a| - 5];
        assert y[i] == (Quote(b) + rest)[i - |a| - 4];
      }
    }
  }

  /** The quoting round trip: however many single quotes the SQL holds, the
      shell reads the quoted text as exactly the SQL, continuing the current
      word. */
  lemma {:induction false} ReadQuote(sql: string, rest: string, done: seq<string>, word: string, inWord: bool)
    ensures ReadFrom(Quote(sql) + rest, done, word, inWord) == ReadFrom(rest, done, word + sql, true)
    decreases |sql|
  {
    var n := FirstQuote(sql);
    var a := sql[..n];
    if n == |sql| {
      assert a == sql;
      ReadUnquoted(sql, rest, done, word, inWord);
    } else {
      var b := sql[n + 1..];
      ReadQuoteStep(a, b, rest, done, word, inWord);
      ReadQuote(b, rest, done, word + a + "'", true);
      assert word + a + "'" + b == word + sql;
    }
  }

  /** Where the first single quote of a text stands, if any. */
  lemma {:induction false} FirstQuote(sql: string) returns (n: nat)
    ensures n == LeadingRun(sql, IsNotQuote) && n <= |sql| && '\'' !in sql[..n]
    ensures n < |sql| ==> sql == sql[..n] + "'" + sql[n + 1..]
  {
    LeadingRunSpec(sql, IsNotQuote);
    n := LeadingRun(sql, IsNotQuote);
    var a := sql[..n];
    assert forall i :: 0 <= i < n ==> a[i] == sql[i];
    if n < |sql| {
      assert sql == a + [sql[n]] + sql[n + 1..];
    }
  }

  /** Quoted text without a single quote is read as it is. */
  lemma {:induction false} ReadUnquoted(a: string, rest: string, done: seq<string>, word: string, inWord: bool)
    requires '\'' !in a
    ensures ReadFrom(Quote(a) + rest, done, word, inWord) == ReadFrom(rest, done, word + a, true)
  {
    EscapeNoQuote(a);
    assert Quote(a) + rest == "'" + a + "'" + rest;
    ReadQuotedRun(a, rest, done, word, inWord);
  }

  /** Up to and including its first single quote, quoted text is read as
      it is. */
  lemma {:induction false} ReadQuoteStep(a: string, b: string, rest: string, done: seq<string>, word: string, inWord: bool)
    requires '\'' !in a
    ensures ReadFrom(Quote(a + "'" + b) + rest, done, word, inWord) == ReadFrom(Quote(b) + rest, done, word + a + "'", true)
  {
    QuoteAtQuote(a, b, rest);
    var tail := "\\'" + (Quote(b) + rest);
    ReadQuotedRun(a, tail, done, word, inWord);
    ReadEscapedQuote(Quote(b) + rest, done, word + a, true);
  }

  /** A blank and then a run of plain characters: the current word is done
      and the run starts the next one. */
  lemma {:induction false} ReadNextWord(w: string, rest: string, done: seq<string>, word: string)
    requires w != [] && forall i :: 0 <= i < |w| ==> IsPlain(w[i])
    ensures ReadFrom(" " + (w + rest), done, word, true) == ReadFrom(rest, done + [word], w, true)
  {
    ReadBlank(w + rest, done, word);
    ReadPlain(w, rest, done + [word], [], false);
    assert [] + w == w;
  }

  /** The words in front of the SQL hold only plain characters. */
  lemma {:induction false} PrefixPlain()
    ensures forall i :: 0 <= i < |DbAssignment| ==> IsPlain(DbAssignment[i])
    ensures forall i :: 0 <= i < |Interpreter| ==> IsPlain(Interpreter[i])
    ensures forall i :: 0 <= i < |ScriptPath| ==> IsPlain(ScriptPath[i])
  {
    AllPlain(DbAssignment);
    AllPlain(Interpreter);
    AllPlain(ScriptPath);
  }

  /** Letters, digits and `-./=_~` are plain. */
  predicate IsNameChar(c: char) {
    'a' <= c <= 'z' || 'A' <= c <= 'Z' || '-' <= c <= '9' || c == '=' || c == '_' || c == '~'
  }

  lemma {:induction false} AllPlain(w: string)
    requires forall i :: 0 <= i < |w| ==> IsNameChar(w[i])
    ensures forall i :: 0 <= i < |w| ==> IsPlain(w[i])
  {
    forall i | 0 <= i < |w|
      ensures IsPlain(w[i])
    {
      var c := w[i];
      assert IsNameChar(c);
      assert !IsShellSpecial(c) by {
        forall j | 0 <= j < 15
          ensures "\"$`|&;<>()*?[#\n"[j] != c
        {
        }
      }
    }
  }

  /** The command line, with its concatenations grouped from the right. */
  lemma {:induction false} CommandLayout(sql: string)
    ensures Command(sql) == DbAssignment + (" " + (Interpreter + (" " + (ScriptPath + (" " + Quote(sql))))))
  {
  }

  /** The command reaches the remote shell as four words: the assignment,
      the interpreter, the script, and the SQL exactly as it was, whatever
      quotes or shell syntax it contains. */
  lemma {:induction false} CommandWords(sql: string)
    ensures ShellWords(Command(sql)) == Some([DbAssignment, Interpreter, ScriptPath, sql])
  {
    var q := Quote(sql);
    var r3 := " " + q;
    var r2 := " " + (ScriptPath + r3);
    var r1 := " " + (Interpreter + r2);
    CommandLayout(sql);
    PrefixPlain();
    ReadPlain(DbAssignment, r1, [], [], false);
    assert [] + DbAssignment == DbAssignment;
    ReadNextWord(Interpreter, r2, [], DbAssignment);
    assert [] + [DbAssignment] == [DbAssignment];
    ReadNextWord(ScriptPath, r3, [DbAssignment], Interpreter);
    assert [DbAssignment] + [Interpreter] == [DbAssignment, Interpreter];
    ReadBlank(q, [DbAssignment, Interpreter], ScriptPath);
    assert [DbAssignment, Interpreter] + [ScriptPath] == [DbAssignment, Interpreter, ScriptPath];
    assert q + [] == q;
    ReadQuote(sql, [], [DbAssignment, Interpreter, ScriptPath], [], false);
    assert [] + sql == sql;
    assert [DbAssignment, Interpreter, ScriptPath] + [sql] == [DbAssignment, Interpreter, ScriptPath, sql];
  }
}
