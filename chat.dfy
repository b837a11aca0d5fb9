/**
 * One exchange with the chat-completion service (mgpt.py, query_gpt, lines
 * 12-24). The service is an opaque `service` parameter from the message list
 * sent to the raw answer text; the model name, token limit and temperature
 * are fixed request options that do not affect the model.
 */
module ChatSession {
  import opened Text

  datatype Role = User | Assistant

  /** One message of the conversation: who said it and what. */
  datatype Turn = Turn(role: Role, content: string)

  /** The conversation list the program keeps and appends to in place. */
  class History {
    var turns: seq<Turn>

    constructor ()
      ensures turns == []
    {
      turns := [];
    }
  }

  /** The service's answer to the history extended by the prompt, stripped. */
  function Answer(turns: seq<Turn>, prompt: string, service: seq<Turn> -> string): (a: string)
    ensures Trimmed(a)
  {
    Strip(service(turns + [Turn(User, prompt)]))
  }

  /** The history after one exchange: the user's prompt, then the answer to it. */
  function Exchange(turns: seq<Turn>, prompt: string, service: seq<Turn> -> string): seq<Turn> {
    turns + [Turn(User, prompt), Turn(Assistant, Answer(turns, prompt, service))]
  }

  /** An exchange appends the prompt and then the stripped reply to the history with the prompt. */
  lemma ExchangeSteps(turns: seq<Turn>, prompt: string, service: seq<Turn> -> string)
    ensures var asked := turns + [Turn(User, prompt)];
      Answer(turns, prompt, service) == Strip(service(asked)) &&
      Exchange(turns, prompt, service) == asked + [Turn(Assistant, Strip(service(asked)))]
  {
    var asked := turns + [Turn(User, prompt)];
    assert asked + [Turn(Assistant, Strip(service(asked)))] ==
      turns + [Turn(User, prompt), Turn(Assistant, Strip(service(asked)))];
  }

  /**
   * One exchange adds exactly two messages, the prompt and then the
   * stripped answer, and leaves every earlier message as it was.
   */
  lemma ExchangeExtends(turns: seq<Turn>, prompt: string, service: seq<Turn> -> string)
    ensures var after := Exchange(turns, prompt, service);
      |after| == |turns| + 2 && after[..|turns|] == turns &&
      after[|turns|] == Turn(User, prompt) &&
      after[|turns| + 1] == Turn(Assistant, Strip(service(turns + [Turn(User, prompt)])))
  {
    var after := Exchange(turns, prompt, service);
    assert after[..|turns|] == turns;
  }

  /** The conversation alternates user and assistant messages, starting with the user. */
  predicate Alternating(turns: seq<Turn>) {
    if turns == [] then true
    else |turns| >= 2 && turns[0].role == User && turns[1].role == Assistant && Alternating(turns[2..])
  }

  /** Two alternating conversations put one after the other still alternate. */
  lemma {:induction false} AlternatingAppend(xs: seq<Turn>, ys: seq<Turn>)
    requires Alternating(xs) && Alternating(ys)
    ensures Alternating(xs + ys)
  {
    if xs != [] {
      AlternatingAppend(xs[2..], ys);
      assert (xs + ys)[2..] == xs[2..] + ys;
    } else {
      assert xs + ys == ys;
    }
  }

  /** A user message followed by an assistant message keeps the conversation alternating. */
  lemma AlternatingPair(turns: seq<Turn>, prompt: string, answer: string)
    requires Alternating(turns)
    ensures Alternating(turns + [Turn(User, prompt), Turn(Assistant, answer)])
  {
    var pair := [Turn(User, prompt), Turn(Assistant, answer)];
    assert pair[2..] == [];
    AlternatingAppend(turns, pair);
  }

  /** An exchange keeps the conversation alternating. */
  lemma ExchangeAlternates(turns: seq<Turn>, prompt: string, service: seq<Turn> -> string)
    requires Alternating(turns)
    ensures Alternating(Exchange(turns, prompt, service))
  {
    AlternatingPair(turns, prompt, Answer(turns, prompt, service));
  }


  /**
   * `query_gpt`: without a history it starts a fresh list; otherwise it
   * appends to the caller's list, which it also returns. The answer is the
   * stripped service reply to the history including the new prompt.
   */
  method QueryGpt(prompt: string, history: History?, service: seq<Turn> -> string)
    returns (answer: string, updated: History)
    modifies history
    ensures history != null ==> updated == history
    ensures history == null ==> fresh(updated)
    ensures history == null ==>
      answer == Answer([], prompt, service) && updated.turns == Exchange([], prompt, service)
    ensures history != null ==>
      answer == Answer(old(history.turns), prompt, service) &&
      updated.turns == Exchange(old(history.turns), prompt, service)
  {
    if history == null {
      updated := new History();
    } else {
      updated := history;
    }
    ghost var before := updated.turns;
    ExchangeSteps(before, prompt, service);
    updated.turns := updated.turns + [Turn(User, prompt)];
    answer := Strip(service(updated.turns));
    updated.turns := updated.turns + [Turn(Assistant, answer)];
  }
}
