/**
 * How a delegation request is built (mgpt.py, call_openmanus, lines 30-39):
 * the confirmation answers the delegate will be asked for, and the text
 * written to its standard input.
 */
module PromptRouter {
  import opened Wrappers
  import opened Text

  /**
   * The confirmation answers (lines 31-37). A list given by the caller is
   * used as it is; otherwise case-insensitive keyword tests on the prompt
   * pick one of three canned lists.
   */
  function Route(prompt: string, given: Option<seq<string>>): (inputs: seq<string>)
    ensures given.Some? ==> inputs == given.value
    ensures given.None? ==> inputs in {["yes"], [], ["Hello World", "yes"]}
  {
    match given
    case Some(list) => list
    case None =>
      if Contains(Lower(prompt), "save") && Contains(Lower(prompt), "execute") then ["yes"]
      else if Contains(Lower(prompt), "save") then []
      else ["Hello World", "yes"]
  }

  /**
   * Without a caller-supplied list, each canned list is chosen exactly when
   * its keyword condition holds on the lower-cased prompt.
   */
  lemma RouteByKeywords(prompt: string)
    ensures Route(prompt, None) == ["yes"] <==>
      Contains(Lower(prompt), "save") && Contains(Lower(prompt), "execute")
    ensures Route(prompt, None) == [] <==>
      Contains(Lower(prompt), "save") && !Contains(Lower(prompt), "execute")
    ensures Route(prompt, None) == ["Hello World", "yes"] <==> !Contains(Lower(prompt), "save")
  {
  }

  /** Lower-casing twice is lower-casing once. */
  lemma LowerIdempotent(s: string)
    ensures Lower(Lower(s)) == Lower(s)
  {
    forall i | 0 <= i < |s| ensures Lower(Lower(s))[i] == Lower(s)[i] {
      var c := s[i];
      assert Lower(s)[i] == LowerChar(c);
    }
  }

  /** The choice ignores letter case: a prompt and its lower-cased form route alike. */
  lemma RouteIgnoresCase(prompt: string)
    ensures Route(Lower(prompt), None) == Route(prompt, None)
  {
    LowerIdempotent(prompt);
  }

  /** The standard-input text (line 39): the task, a break, the answers joined by breaks, a break. */
  function Payload(task: string, inputs: seq<string>): string {
    task + "\n" + Join("\n", inputs) + "\n"
  }

  /**
   * For break-free items the payload is the task line, one line per answer
   * in order, and a final break: split on "\n" it gives the task, the answers
   * and one empty piece. With no answers the payload is the task and two
   * breaks.
   */
  lemma PayloadLines(task: string, inputs: seq<string>)
    requires '\n' !in task
    requires forall x :: x in inputs ==> '\n' !in x
    ensures inputs != [] ==> Split(Payload(task, inputs), '\n') == [task] + inputs + [""]
    ensures inputs != [] ==> Lines(Payload(task, inputs)) == [task] + inputs
    ensures inputs == [] ==> Payload(task, inputs) == task + "\n\n"
    ensures inputs == [] ==> Split(Payload(task, inputs), '\n') == [task, "", ""]
    ensures inputs == [] ==> Lines(Payload(task, inputs)) == [task, ""]
  {
    var p := Payload(task, inputs);
    if inputs != [] {
      JoinAppend("\n", [task], inputs);
      JoinAppend("\n", [task] + inputs, [""]);
      assert p == Join("\n", [task] + inputs + [""]);
      assert forall x :: x in [task] + inputs + [""] ==> '\n' !in x;
      SplitJoin([task] + inputs + [""], '\n');
      assert p[..|p| - 1] == Join("\n", [task] + inputs);
      assert forall x :: x in [task] + inputs ==> '\n' !in x;
      SplitJoin([task] + inputs, '\n');
    } else {
      assert p == task + "\n\n";
      assert p == Join("\n", [task, "", ""]) by {
        assert [task, "", ""][1..] == ["", ""];
        assert ["", ""][1..] == [""];
      }
      SplitJoin([task, "", ""], '\n');
      assert p[..|p| - 1] == Join("\n", [task, ""]) by {
        assert [task, ""][1..] == [""];
      }
      SplitJoin([task, ""], '\n');
    }
  }
}
