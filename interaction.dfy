/**
 * The interactive mode (mgpt.py, interactive_chat, lines 93-119): each input
 * line is read, stripped and dispatched to exit, skip, a delegation to
 * OpenManus or one chat exchange. The input lines are a parameter; the end
 * of the lines is where the original stops reading.
 */
module InteractionLoop {
  import opened Wrappers
  import opened Text
  import opened ChatSession
  import opened DelegationInvoker

  /** What one input line asks for. */
  datatype Command =
    | Exit
    | Skip
    | Delegate(task: string, given: Option<seq<string>>)
    | Chat(prompt: string)

  /** The case-sensitive prefix that sends a line to OpenManus. */
  const DelegatePrefix: string := "openmanus:"

  /**
   * Lines 98-112: "exit" in any letter case ends the session; an empty line
   * is skipped; a line with the prefix delegates the rest of it.
   */
  function ClassifyInput(raw: string): Command {
    var prompt := Strip(raw);
    if Lower(prompt) == "exit" then Exit
    else if prompt == [] then Skip
    else if DelegatePrefix <= prompt then DelegateCommand(Strip(prompt[|DelegatePrefix|..]))
    else Chat(prompt)
  }

  /**
   * Lines 105-112: a delegated task that contains ';' is split into the task
   * and the confirmation answers, each stripped.
   */
  function DelegateCommand(rest: string): (c: Command)
    ensures c.Delegate?
  {
    if ';' in rest then
      var parts := Split(rest, ';');
      Delegate(Strip(parts[0]), Some(StripEach(parts[1..])))
    else Delegate(rest, None)
  }

  /** The four kinds of line are told apart exactly by their conditions on the stripped line. */
  lemma ClassifyInputSpec(raw: string)
    ensures ClassifyInput(raw) == Exit <==> Lower(Strip(raw)) == "exit"
    ensures ClassifyInput(raw) == Skip <==> Strip(raw) == []
    ensures ClassifyInput(raw).Delegate? <==> DelegatePrefix <= Strip(raw)
    ensures ClassifyInput(raw).Delegate? ==>
      ClassifyInput(raw) == DelegateCommand(Strip(Strip(raw)[|DelegatePrefix|..]))
    ensures ClassifyInput(raw).Chat? <==>
      Strip(raw) != [] && Lower(Strip(raw)) != "exit" && !(DelegatePrefix <= Strip(raw))
    ensures ClassifyInput(raw).Chat? ==> ClassifyInput(raw).prompt == Strip(raw)
  {
    var prompt := Strip(raw);
    if Lower(prompt) == "exit" {
      assert |prompt| == 4;
    }
  }

  /**
   * A task part without ';' is the task itself. With ';' it is the ';'-join
   * of separator-free pieces: the task is the first piece stripped and every
   * further piece becomes one stripped answer, in order.
   */
  lemma DelegateCommandSpec(rest: string)
    ensures DelegateCommand(rest).given.None? <==> ';' !in rest
    ensures DelegateCommand(rest).given.None? ==> DelegateCommand(rest).task == rest
    ensures var c := DelegateCommand(rest);
      c.given.Some? ==>
        exists parts: seq<string> ::
          |parts| == |c.given.value| + 1 && Join([';'], parts) == rest &&
          (forall p :: p in parts ==> ';' !in p) &&
          c.task == Strip(parts[0]) &&
          (forall i :: 0 <= i < |c.given.value| ==> c.given.value[i] == Strip(parts[i + 1]))
  {
    if ';' in rest {
      var parts := Split(rest, ';');
      SplitJoinBack(rest, ';');
      var given := StripEach(parts[1..]);
      assert forall i :: 0 <= i < |given| ==> given[i] == Strip(parts[i + 1]);
    }
  }

  /** How many answers a delegated line supplies: one per ';' in its task part. */
  lemma AnswerCount(rest: string)
    requires ';' in rest
    ensures |DelegateCommand(rest).given.value| == multiset(rest)[';']
  {
    SplitCount(rest, ';');
  }

  /** The environment the loop talks to. */
  datatype Env = Env(scriptExists: bool, run: string -> Outcome, service: seq<Turn> -> string)

  /** What the loop prints in reply to a line. */
  datatype Shown = Bot(answer: string) | OpenManus(answer: string) | Ended

  /** What a session prints, and the conversation it leaves. */
  datatype Run = Run(shown: seq<Shown>, turns: seq<Turn>)

  /** `shown` printed before the rest of a session. */
  function After(shown: seq<Shown>, rest: Run): Run {
    Run(shown + rest.shown, rest.turns)
  }

  /** Printing `xs` and then `ys` before a run is printing `xs + ys` before it. */
  lemma AfterAfter(xs: seq<Shown>, ys: seq<Shown>, rest: Run)
    ensures After(xs, After(ys, rest)) == After(xs + ys, rest)
  {
    assert xs + (ys + rest.shown) == xs + ys + rest.shown;
  }

  /** The command each input line stands for, in order. */
  function Commands(lines: seq<string>): (cmds: seq<Command>)
    ensures |cmds| == |lines|
  {
    seq(|lines|, i requires 0 <= i < |lines| => ClassifyInput(lines[i]))
  }

  /** What the loop prints for a command other than exit. */
  function Printed(c: Command, turns: seq<Turn>, env: Env): seq<Shown> {
    match c
    case Exit => [Ended]
    case Skip => []
    case Delegate(task, given) => [OpenManus(Reply(task, given, env.scriptExists, env.run))]
    case Chat(prompt) => [Bot(Answer(turns, prompt, env.service))]
  }

  /** The conversation after a command: only a chat line extends it. */
  function NextTurns(c: Command, turns: seq<Turn>, env: Env): seq<Turn> {
    if c.Chat? then Exchange(turns, c.prompt, env.service) else turns
  }

  /** A skipped line prints nothing; a chat or delegation line prints one reply and no farewell. */
  lemma PrintedShape(c: Command, turns: seq<Turn>, env: Env)
    ensures c.Skip? ==> Printed(c, turns, env) == []
    ensures c.Chat? || c.Delegate? ==>
      |Printed(c, turns, env)| == 1 && Printed(c, turns, env)[0] != Ended
  {
  }

  /**
   * The session over the commands `cmds`, starting from the conversation
   * `turns`: every command prints its reply and the reading stops after the
   * first exit.
   */
  function Session(cmds: seq<Command>, turns: seq<Turn>, env: Env): Run
    decreases |cmds|
  {
    if cmds == [] then Run([], turns)
    else if cmds[0] == Exit then Run([Ended], turns)
    else After(Printed(cmds[0], turns, env), Session(cmds[1..], NextTurns(cmds[0], turns, env), env))
  }

  /** The session from the `i`-th command: an exit ends it, anything else prints and goes on. */
  lemma SessionStep(cmds: seq<Command>, i: nat, turns: seq<Turn>, env: Env)
    requires i < |cmds|
    ensures cmds[i] == Exit ==> Session(cmds[i..], turns, env) == Run([Ended], turns)
    ensures cmds[i] != Exit ==>
      Session(cmds[i..], turns, env) ==
      After(Printed(cmds[i], turns, env), Session(cmds[i + 1..], NextTurns(cmds[i], turns, env), env))
  {
    assert cmds[i..][0] == cmds[i] && cmds[i..][1..] == cmds[i + 1..];
  }

  /**
   * One line of the chat loop other than exit: a delegation prints the
   * OpenManus reply, a chat line asks the service with the shared history
   * and prints its answer, an empty line prints nothing.
   */
  method Respond(cmd: Command, history: History, env: Env) returns (printed: seq<Shown>)
    requires cmd != Exit
    modifies history
    ensures printed == Printed(cmd, old(history.turns), env)
    ensures history.turns == NextTurns(cmd, old(history.turns), env)
  {
    match cmd {
      case Skip =>
        printed := [];
      case Delegate(task, given) =>
        var answer := CallOpenManus(task, given, env.scriptExists, env.run);
        printed := [OpenManus(answer)];
      case Chat(prompt) =>
        var answer, h := QueryGpt(prompt, history, env.service);
        printed := [Bot(answer)];
    }
  }

  /**
   * `interactive_chat`: it reads the lines in order with one shared history
   * object, and prints and keeps exactly what the session of their commands
   * says.
   */
  method InteractiveChat(lines: seq<string>, env: Env) returns (shown: seq<Shown>, history: History)
    ensures fresh(history)
    ensures Run(shown, history.turns) == Session(Commands(lines), [], env)
  {
    ghost var cmds := Commands(lines);
    history := new History();
    shown := [];
    var i := 0;
    assert cmds[0..] == cmds;
    assert [] + Session(cmds, [], env).shown == Session(cmds, [], env).shown;
    while i < |lines|
      invariant 0 <= i <= |lines|
      invariant fresh(history)
      invariant Session(cmds, [], env) == After(shown, Session(cmds[i..], history.turns, env))
    {
      var cmd := ClassifyInput(lines[i]);
      assert cmd == cmds[i];
      SessionStep(cmds, i, history.turns, env);
      if cmd == Exit {
        AfterAfter(shown, [Ended], Run([], history.turns));
        shown := shown + [Ended];
        return;
      }
      var printed := Respond(cmd, history, env);
      AfterAfter(shown, printed, Session(cmds[i + 1..], history.turns, env));
      shown := shown + printed;
      i := i + 1;
    }
  }

  /** A session keeps the conversation alternating between user and assistant. */
  lemma {:induction false} SessionAlternates(cmds: seq<Command>, turns: seq<Turn>, env: Env)
    requires Alternating(turns)
    ensures Alternating(Session(cmds, turns, env).turns)
    decreases |cmds|
  {
    if cmds != [] && cmds[0] != Exit {
      if cmds[0].Chat? {
        ExchangeAlternates(turns, cmds[0].prompt, env.service);
      }
      SessionAlternates(cmds[1..], NextTurns(cmds[0], turns, env), env);
    }
  }

  /** How many chat answers were printed. */
  function BotCount(shown: seq<Shown>): nat {
    if shown == [] then 0 else (if shown[0].Bot? then 1 else 0) + BotCount(shown[1..])
  }

  /**
   * The conversation only grows, by exactly two messages per chat answer
   * printed; delegations and skipped lines add nothing to it.
   */
  lemma {:induction false} SessionHistoryGrowth(cmds: seq<Command>, turns: seq<Turn>, env: Env)
    ensures var r := Session(cmds, turns, env);
      |r.turns| == |turns| + 2 * BotCount(r.shown) && r.turns[..|turns|] == turns
    decreases |cmds|
  {
    if cmds != [] && cmds[0] != Exit {
      var c := cmds[0];
      var r := Session(cmds, turns, env);
      var t := NextTurns(c, turns, env);
      var rest := Session(cmds[1..], t, env);
      SessionHistoryGrowth(cmds[1..], t, env);
      if c.Skip? {
        assert r == rest;
      } else {
        assert r.shown == Printed(c, turns, env) + rest.shown;
        assert r.shown[1..] == rest.shown;
        assert r.turns[..|turns|] == r.turns[..|t|][..|turns|];
      }
    }
  }

  /**
   * "Chat ended." is printed exactly when some line asks to exit, and then
   * it is the last thing printed.
   */
  lemma {:induction false} SessionEnds(cmds: seq<Command>, turns: seq<Turn>, env: Env)
    ensures var r := Session(cmds, turns, env);
      (Ended in r.shown <==> Exit in cmds) &&
      (Ended in r.shown ==> r.shown[|r.shown| - 1] == Ended && Ended !in r.shown[..|r.shown| - 1])
    decreases |cmds|
  {
    if cmds != [] && cmds[0] != Exit {
      var c := cmds[0];
      var rest := Session(cmds[1..], NextTurns(c, turns, env), env);
      SessionEnds(cmds[1..], NextTurns(c, turns, env), env);
      assert Exit in cmds <==> Exit in cmds[1..] by {
        assert cmds == [c] + cmds[1..];
      }
      PrintedShape(c, turns, env);
      EndedAfter(Printed(c, turns, env), rest.shown);
    }
  }

  /** A prefix of at most one reply, none of them the farewell, keeps where the farewell stands. */
  lemma EndedAfter(p: seq<Shown>, rest: seq<Shown>)
    requires |p| <= 1 && Ended !in p
    ensures Ended in p + rest <==> Ended in rest
    ensures rest != [] && rest[|rest| - 1] == Ended && Ended !in rest[..|rest| - 1] ==>
      (p + rest)[|p + rest| - 1] == Ended && Ended !in (p + rest)[..|p + rest| - 1]
  {
    if rest != [] {
      assert (p + rest)[..|p + rest| - 1] == p + rest[..|rest| - 1];
    }
  }


  /** Nothing after the first "exit" line is read. */
  lemma {:induction false} SessionStopsAtExit(cmds: seq<Command>, more: seq<Command>, turns: seq<Turn>, env: Env)
    requires Exit in cmds
    ensures Session(cmds + more, turns, env) == Session(cmds, turns, env)
    decreases |cmds|
  {
    var all := cmds + more;
    assert all[0] == cmds[0];
    if cmds[0] != Exit {
      assert cmds == [cmds[0]] + cmds[1..];
      assert all[1..] == cmds[1..] + more;
      SessionStopsAtExit(cmds[1..], more, NextTurns(cmds[0], turns, env), env);
    }
  }

  /** The commands of two runs of input lines are the commands of each, in order. */
  lemma CommandsAppend(lines: seq<string>, more: seq<string>)
    ensures Commands(lines + more) == Commands(lines) + Commands(more)
  {
    var all := lines + more;
    forall i | 0 <= i < |all|
      ensures Commands(all)[i] == (Commands(lines) + Commands(more))[i]
    {
      if i >= |lines| {
        assert all[i] == more[i - |lines|];
      }
    }
  }
}
