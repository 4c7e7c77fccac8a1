/**
 * How the pieces fit together on one question: the cleaned completion is
 * quoted into the command line, the remote shell hands it to the script as
 * its one argument, and the script's guard lets it through.
 */
module Pipeline {
  import opened Wrappers
  import opened PyStr
  import SqlCleanup
  import RemoteClient
  import QueryRunner

  /** The script's `sys.argv` for the shell words of a command line that
      runs `python3 <script> <args>` after one variable assignment: the
      assignment goes to the environment and `python3` is the program.
      The shell also expands the `~` of the script path; the reader leaves
      that word as written, and the script never reads `argv[0]`. */
  function ScriptArgv(words: seq<string>): seq<string>
    requires |words| >= 2
  {
    words[2..]
  }

  /** Whatever the model answers, the cleaned query reaches the script
      intact as its only argument and passes its SELECT check, so the
      script runs exactly that query. */
  lemma {:induction false} CleanedQueryRuns(raw: string)
    ensures var sql := SqlCleanup.Cleanup(raw);
      var words := RemoteClient.ShellWords(RemoteClient.Command(sql));
      && words.Some? && |words.value| == 4
      && |ScriptArgv(words.value)| == 2 && ScriptArgv(words.value)[1] == sql
      && QueryRunner.Dispatch(ScriptArgv(words.value)) == QueryRunner.Execute(sql)
  {
    var sql := SqlCleanup.Cleanup(raw);
    RemoteClient.CommandWords(sql);
    CleanedQueryPasses(raw);
    assert ScriptArgv([RemoteClient.DbAssignment, RemoteClient.Interpreter, RemoteClient.ScriptPath, sql])
      == [RemoteClient.ScriptPath, sql];
  }

  /** The cleaned query passes the script's SELECT check. */
  lemma {:induction false} CleanedQueryPasses(raw: string)
    ensures QueryRunner.IsSelectQuery(SqlCleanup.Cleanup(raw))
  {
    SqlCleanup.CleanupShape(raw);
    CleanTextPasses(SqlCleanup.Cleanup(raw));
  }

  /** A single-line text that starts with `SELECT` passes the check. */
  lemma {:induction false} CleanTextPasses(sql: string)
    requires sql != [] && SqlCleanup.StartsWithSelect(sql) && Collapsed(sql)
    ensures QueryRunner.IsSelectQuery(sql)
  {
    StripTrimmed(sql);
  }
}
