/**
 * Delegating a task to OpenManus (mgpt.py, call_openmanus, lines 26-91):
 * the process is reached through an opaque `run` parameter that maps the
 * standard-input text to how the process ended, and the existence check of
 * the script path through a boolean.
 */
module DelegationInvoker {
  import opened Wrappers
  import opened Text
  import opened PromptRouter
  import opened OutputExtractor

  /**
   * How one run of `python <script>` ended. A missing script makes the
   * interpreter exit with a non-zero status, so it is an `Exited` outcome.
   * The `TimedOut` streams are the partial output as text, already rendered
   * the way the timeout message quotes it.
   */
  datatype Outcome =
    | Exited(code: int, stdout: string, stderr: string)
    | TimedOut(stdout: string, stderr: string)
    | PythonMissing

  /** The fixed script location (line 27). */
  const ScriptPath: string := "/home/jumpmanjr/OpenManus/main.py"

  /** One decimal digit. */
  function Digit(d: nat): char
    requires d < 10
  {
    ('0' as int + d) as char
  }

  /** The decimal rendering of a natural number, most significant digit first. */
  function NatText(n: nat): (t: string)
    ensures 1 <= |t|
    ensures forall i :: 0 <= i < |t| ==> '0' <= t[i] <= '9'
    ensures n < 10 <==> |t| == 1
  {
    if n < 10 then [Digit(n)] else NatText(n / 10) + [Digit(n % 10)]
  }

  /** The decimal rendering of an exit code, with a minus sign when negative. */
  function IntText(n: int): string {
    if n < 0 then "-" + NatText(-n) else NatText(n)
  }

  /** The reply when the script path does not exist (line 48). */
  const MissingScriptReply: string := "Error: OpenManus path " + ScriptPath + " does not exist."

  /** The reply when the `python` interpreter cannot be started (line 91). */
  const PythonMissingReply: string := "Error: 'python' or OpenManus script not found."

  /** The reply after the time limit, carrying the partial streams (line 87). */
  function TimeoutReply(stdout: string, stderr: string): string {
    "OpenManus timed out after 60 seconds.\nStdout: '" + stdout + "'\nStderr: '" + stderr + "'"
  }

  /** The reply after a non-zero exit, carrying the code and both streams (line 89). */
  function FailureReply(code: int, stdout: string, stderr: string): string {
    "OpenManus failed with exit code " + IntText(code) + ".\nStdout: '" + stdout + "'\nStderr: '" + stderr + "'"
  }

  /**
   * What call_openmanus returns: the path check comes first and starts no
   * process; a clean exit yields the filtered output; every failure yields
   * its own message.
   */
  function Reply(task: string, given: Option<seq<string>>, scriptExists: bool, run: string -> Outcome): string {
    if !scriptExists then MissingScriptReply
    else
      match run(Payload(task, Route(task, given)))
      case Exited(code, out, err) => if code == 0 then Extract(out, err) else FailureReply(code, out, err)
      case TimedOut(out, err) => TimeoutReply(out, err)
      case PythonMissing => PythonMissingReply
  }

  /** `call_openmanus` itself: it builds the stdin text, runs the process and filters its output. */
  method CallOpenManus(task: string, given: Option<seq<string>>, scriptExists: bool, run: string -> Outcome)
    returns (answer: string)
    ensures answer == Reply(task, given, scriptExists, run)
  {
    var stdinText := Payload(task, Route(task, given));
    if !scriptExists {
      return MissingScriptReply;
    }
    var outcome := run(stdinText);
    match outcome {
      case Exited(code, out, err) =>
        if code == 0 {
          answer := FilterOutput(out, err);
        } else {
          answer := FailureReply(code, out, err);
        }
      case TimedOut(out, err) =>
        answer := TimeoutReply(out, err);
      case PythonMissing =>
        answer := PythonMissingReply;
    }
  }

  /** `pre + x + post` contains `x`. */
  lemma ContainsMiddle(pre: string, x: string, post: string)
    ensures Contains(pre + x + post, x)
  {
    var s := pre + x + post;
    assert x <= s[|pre|..];
  }

  /** A missing script gives the configuration error, whatever the task and the process would do. */
  lemma MissingScriptIgnoresTask(task: string, given: Option<seq<string>>, run: string -> Outcome)
    ensures Reply(task, given, false, run) == MissingScriptReply
    ensures Contains(Reply(task, given, false, run), ScriptPath)
  {
    ContainsMiddle("Error: OpenManus path ", ScriptPath, " does not exist.");
  }

  /** The timeout message quotes both partial streams. */
  lemma TimeoutReplyKeepsStreams(out: string, err: string)
    ensures Contains(TimeoutReply(out, err), out) && Contains(TimeoutReply(out, err), err)
  {
    var a := "OpenManus timed out after 60 seconds.\nStdout: '";
    var b := "'\nStderr: '";
    assert TimeoutReply(out, err) == a + out + (b + err + "'");
    ContainsMiddle(a, out, b + err + "'");
    assert TimeoutReply(out, err) == (a + out + b) + err + "'";
    ContainsMiddle(a + out + b, err, "'");
  }

  /** The failure message quotes the exit code and both streams. */
  lemma FailureReplyKeepsStreams(code: int, out: string, err: string)
    ensures Contains(FailureReply(code, out, err), IntText(code))
    ensures Contains(FailureReply(code, out, err), out) && Contains(FailureReply(code, out, err), err)
  {
    var a := "OpenManus failed with exit code ";
    var c := IntText(code);
    var m := ".\nStdout: '";
    var b := "'\nStderr: '";
    assert FailureReply(code, out, err) == a + c + (m + out + b + err + "'");
    ContainsMiddle(a, c, m + out + b + err + "'");
    assert FailureReply(code, out, err) == (a + c + m) + out + (b + err + "'");
    ContainsMiddle(a + c + m, out, b + err + "'");
    assert FailureReply(code, out, err) == (a + c + m + out + b) + err + "'";
    ContainsMiddle(a + c + m + out + b, err, "'");
  }

  /**
   * A timeout or a failed exit reports both captured streams verbatim, and a
   * failure also reports its exit code.
   */
  lemma FailureRepliesKeepStreams(task: string, given: Option<seq<string>>, run: string -> Outcome)
    ensures var o := run(Payload(task, Route(task, given)));
      (o.TimedOut? || (o.Exited? && o.code != 0)) ==>
        Contains(Reply(task, given, true, run), o.stdout) &&
        Contains(Reply(task, given, true, run), o.stderr)
    ensures var o := run(Payload(task, Route(task, given)));
      o.Exited? && o.code != 0 ==> Contains(Reply(task, given, true, run), IntText(o.code))
  {
    var o := run(Payload(task, Route(task, given)));
    if o.TimedOut? {
      TimeoutReplyKeepsStreams(o.stdout, o.stderr);
    } else if o.Exited? {
      FailureReplyKeepsStreams(o.code, o.stdout, o.stderr);
    }
  }

  /** A clean exit answers with the filtered output of both streams. */
  lemma CleanExitIsFiltered(task: string, given: Option<seq<string>>, run: string -> Outcome, out: string, err: string)
    requires run(Payload(task, Route(task, given))) == Exited(0, out, err)
    ensures Reply(task, given, true, run) == Extract(out, err)
  {
  }

  /** The process sees exactly the task line followed by one line per confirmation answer. */
  lemma ProcessSeesTaskThenAnswers(task: string, given: Option<seq<string>>, run: string -> Outcome)
    requires '\n' !in task
    requires forall x :: x in Route(task, given) ==> '\n' !in x
    requires Route(task, given) != []
    ensures Lines(Payload(task, Route(task, given))) == [task] + Route(task, given)
  {
    PayloadLines(task, Route(task, given));
  }

  /** Distinct non-negative exit codes are reported differently. */
  lemma {:induction false} NatTextInjective(m: nat, n: nat)
    requires NatText(m) == NatText(n)
    ensures m == n
  {
    var t := NatText(m);
    if m >= 10 && n >= 10 {
      assert NatText(m / 10) == t[..|t| - 1];
      assert NatText(n / 10) == t[..|t| - 1];
      NatTextInjective(m / 10, n / 10);
      assert Digit(m % 10) == t[|t| - 1] == Digit(n % 10);
    } else if m < 10 && n < 10 {
      assert Digit(m) == t[0] == Digit(n);
    }
  }

  /** A rendered exit code starts with a minus sign exactly when it is negative. */
  lemma IntTextSign(n: int)
    ensures |IntText(n)| >= 1 && (IntText(n)[0] == '-' <==> n < 0)
  {
    if n >= 0 {
      assert '0' <= NatText(n)[0] <= '9';
    }
  }

  /** Distinct exit codes, negative ones included, are reported differently. */
  lemma IntTextInjective(m: int, n: int)
    requires IntText(m) == IntText(n)
    ensures m == n
  {
    IntTextSign(m);
    IntTextSign(n);
    if m < 0 {
      assert NatText(-m) == IntText(m)[1..] == IntText(n)[1..] == NatText(-n);
      NatTextInjective(-m, -n);
    } else {
      NatTextInjective(m, n);
    }
  }
}
