/**
 * The chat front end's session: the stored conversation and chosen model,
 * the `/settings` and `/clear` commands, the history window sent to the
 * model, and the routing of a streamed reply between the "Thinking" step
 * and the answer.
 */
module Chatbot {
  import opened Wrappers
  import opened Strings
  import RagSystem

  const DefaultModel: string := "deepseek-r1"

  /** How many exchanges the window keeps besides the system message. */
  const MaxHistory: nat := 10

  const ThinkOpen: string := "<think>"
  const ThinkClose: string := "</think>"
  const RetrievalError: string := "Knowledge retrieval error: "

  /** A `{"role": …, "content": …}` entry of the history. */
  datatype Message = Message(role: string, content: string)

  // ---------------------------------------------------------------------
  // retrieve
  // ---------------------------------------------------------------------

  /** `retrieve`, given the result of the graph query. */
  function Retrieve(r: RagSystem.QueryResult): string {
    if Truthy(r.error) then RetrievalError + r.error.value else r.context
  }

  /**
   * An empty search reaches the model as the retrieval error "No relevant
   * information found"; any other search as the (trimmed) context itself.
   */
  lemma RetrieveAnswer(question: string, hits: seq<RagSystem.Item>, maxContextLength: int, maxEntities: int, order: seq<string>)
    requires RagSystem.Enumerates(order, RagSystem.IdsOf(RagSystem.Selected(hits, maxEntities)))
    ensures var a := RagSystem.Answer(question, hits, maxContextLength, maxEntities, order);
      (hits == [] ==> Retrieve(a) == RetrievalError + RagSystem.NothingFound) &&
      (hits != [] ==> Retrieve(a) == a.context)
  {
    RagSystem.AnswerSpec(question, hits, maxContextLength, maxEntities, order);
  }

  // ---------------------------------------------------------------------
  // Routing a streamed reply
  // ---------------------------------------------------------------------

  predicate IsTag(c: string) {
    c == ThinkOpen || c == ThinkClose
  }

  /** Where the chunks read so far went, and whether the model is inside its thinking. */
  datatype Routing = Routing(thought: seq<string>, answer: seq<string>, thinking: bool)

  /**
   * The streaming loop for the reasoning model: a chunk that is exactly an
   * opening or closing tag only switches thinking on or off; any other chunk
   * goes to the thinking step while thinking, and to the answer otherwise.
   */
  function RouteChunks(chunks: seq<string>): Routing
    decreases |chunks|
  {
    if chunks == [] then Routing([], [], false)
    else
      var r := RouteChunks(chunks[..|chunks| - 1]);
      var c := chunks[|chunks| - 1];
      if c == ThinkOpen then r.(thinking := true)
      else if c == ThinkClose then r.(thinking := false)
      else if r.thinking then r.(thought := r.thought + [c])
      else r.(answer := r.answer + [c])
  }

  /** The chunks that are not tags, in order. */
  function NonTags(chunks: seq<string>): (ts: seq<string>)
    ensures forall t :: t in ts ==> !IsTag(t)
    decreases |chunks|
  {
    if chunks == [] then []
    else
      var c := chunks[|chunks| - 1];
      NonTags(chunks[..|chunks| - 1]) + (if IsTag(c) then [] else [c])
  }

  /** The last tag among the chunks, if any. */
  function LastTag(chunks: seq<string>): Option<string>
    decreases |chunks|
  {
    if chunks == [] then None
    else
      var c := chunks[|chunks| - 1];
      if IsTag(c) then Some(c) else LastTag(chunks[..|chunks| - 1])
  }

  /** Every chunk that is not a tag is forwarded exactly once, to one of the two places. */
  lemma {:induction false} RouteConserves(chunks: seq<string>)
    ensures var r := RouteChunks(chunks);
      multiset(r.thought) + multiset(r.answer) == multiset(NonTags(chunks))
    decreases |chunks|
  {
    if chunks != [] {
      RouteConserves(chunks[..|chunks| - 1]);
    }
  }

  /** No tag is ever forwarded. */
  lemma RouteDropsTags(chunks: seq<string>)
    ensures var r := RouteChunks(chunks);
      (forall t :: t in r.thought ==> !IsTag(t)) && (forall t :: t in r.answer ==> !IsTag(t))
  {
    var r := RouteChunks(chunks);
    RouteConserves(chunks);
    forall t | t in r.thought || t in r.answer ensures !IsTag(t) {
      assert t in multiset(r.thought) + multiset(r.answer);
    }
  }

  /** The model is thinking exactly when the last tag seen was an opening one. */
  lemma {:induction false} RouteThinking(chunks: seq<string>)
    ensures RouteChunks(chunks).thinking <==> LastTag(chunks) == Some(ThinkOpen)
    decreases |chunks|
  {
    if chunks != [] {
      RouteThinking(chunks[..|chunks| - 1]);
    }
  }

  /** A reply holding no tag goes entirely to the answer, in order. */
  lemma {:induction false} UntaggedAllAnswer(chunks: seq<string>)
    requires forall k :: 0 <= k < |chunks| ==> !IsTag(chunks[k])
    ensures RouteChunks(chunks) == Routing([], chunks, false)
    decreases |chunks|
  {
    if chunks != [] {
      var p := chunks[..|chunks| - 1];
      UntaggedAllAnswer(p);
      assert p + [chunks[|chunks| - 1]] == chunks;
    }
  }

  /** The tokens the answer receives: routed for the reasoning model, all of them for any other. */
  function AnswerTokens(model: string, chunks: seq<string>): seq<string> {
    if model == DefaultModel then RouteChunks(chunks).answer else chunks
  }

  /** The tokens the thinking step receives. */
  function ThoughtTokens(model: string, chunks: seq<string>): seq<string> {
    if model == DefaultModel then RouteChunks(chunks).thought else []
  }

  /** Streamed tokens as the message text they build up. */
  function Joined(ts: seq<string>): string {
    Concat(ts, 0, |ts|)
  }

  lemma JoinedSnoc(ts: seq<string>, c: string)
    ensures Joined(ts + [c]) == Joined(ts) + c
  {
    ConcatPrefix(ts + [c], |ts|);
    assert (ts + [c])[..|ts|] == ts;
  }

  /** The streaming loop of `main`: the text of the thinking step and of the final answer. */
  method StreamReply(model: string, chunks: seq<string>) returns (thoughtText: string, answerText: string)
    ensures thoughtText == Joined(ThoughtTokens(model, chunks))
    ensures answerText == Joined(AnswerTokens(model, chunks))
  {
    thoughtText, answerText := "", "";
    if model == DefaultModel {
      var thinking := false;
      for i := 0 to |chunks|
        invariant thinking == RouteChunks(chunks[..i]).thinking
        invariant thoughtText == Joined(RouteChunks(chunks[..i]).thought)
        invariant answerText == Joined(RouteChunks(chunks[..i]).answer)
      {
        assert chunks[..i + 1][..i] == chunks[..i];
        var content := chunks[i];
        if content == ThinkOpen {
          thinking := true;
          continue;
        }
        if content == ThinkClose {
          thinking := false;
          continue;
        }
        if thinking {
          JoinedSnoc(RouteChunks(chunks[..i]).thought, content);
          thoughtText := thoughtText + content;
        } else {
          JoinedSnoc(RouteChunks(chunks[..i]).answer, content);
          answerText := answerText + content;
        }
      }
      assert chunks[..|chunks|] == chunks;
    } else {
      for i := 0 to |chunks|
        invariant answerText == Joined(chunks[..i])
      {
        assert chunks[..i + 1] == chunks[..i] + [chunks[i]];
        JoinedSnoc(chunks[..i], chunks[i]);
        answerText := answerText + chunks[i];
      }
      assert chunks[..|chunks|] == chunks;
    }
  }

  // ---------------------------------------------------------------------
  // The history
  // ---------------------------------------------------------------------

  /** The stripped message, lower-cased, as the command tests see it. */
  function Command(content: string): string {
    Lower(StripSpace(content))
  }

  /** The system message put first: inserted when missing, its content replaced otherwise. */
  function WithSystem(h: seq<Message>, systemPrompt: string): seq<Message> {
    if h == [] || h[0].role != "system" then [Message("system", systemPrompt)] + h
    else h[0 := h[0].(content := systemPrompt)]
  }

  /** Above `2 * MaxHistory + 1` entries, the first entry and the last `2 * MaxHistory`. */
  function Windowed(h: seq<Message>): seq<Message> {
    if |h| > MaxHistory * 2 + 1 then [h[0]] + h[|h| - MaxHistory * 2..] else h
  }

  /** The history stored after an ordinary message and the model's answer to it. */
  function NextHistory(h: seq<Message>, systemPrompt: string, userInput: string, answer: string): seq<Message> {
    Windowed(WithSystem(h, systemPrompt) + [Message("user", userInput)]) + [Message("assistant", answer)]
  }

  /** What the stored history always looks like between messages. */
  predicate WellShaped(h: seq<Message>) {
    h == [] || (|h| <= MaxHistory * 2 + 2 && h[0].role == "system")
  }

  /**
   * Whatever the history was before, the one stored after an ordinary
   * message starts with the system message holding the new prompt, ends
   * with the user's message and the answer, and has at most 22 entries;
   * the entries in between are the most recent ones of the old history,
   * in order.
   */
  lemma NextHistorySpec(h: seq<Message>, systemPrompt: string, userInput: string, answer: string)
    ensures var n, w := NextHistory(h, systemPrompt, userInput, answer), WithSystem(h, systemPrompt);
      && 3 <= |n| <= MaxHistory * 2 + 2
      && n[0] == Message("system", systemPrompt)
      && n[|n| - 2] == Message("user", userInput)
      && n[|n| - 1] == Message("assistant", answer)
      && |n| - 3 <= |w| - 1
      && n[1..|n| - 2] == w[|w| - (|n| - 3)..]
      && WellShaped(n)
  {
    var w := WithSystem(h, systemPrompt);
    assert w != [] && w[0] == Message("system", systemPrompt);
    WindowedShape(w, Message("user", userInput), Message("assistant", answer));
  }

  /** The window over a history with one more message, then the answer appended. */
  lemma WindowedShape(w: seq<Message>, user: Message, reply: Message)
    requires w != []
    ensures var n := Windowed(w + [user]) + [reply];
      && 3 <= |n| <= MaxHistory * 2 + 2
      && n[0] == w[0] && n[|n| - 2] == user && n[|n| - 1] == reply
      && |n| - 3 <= |w| - 1
      && n[1..|n| - 2] == w[|w| - (|n| - 3)..]
  {
    var n := Windowed(w + [user]) + [reply];
    var m := if |w| + 1 > MaxHistory * 2 + 1 then w[|w| - (MaxHistory * 2 - 1)..] else w[1..];
    assert n == [w[0]] + m + [user, reply] by {
      if |w| + 1 > MaxHistory * 2 + 1 {
        WindowedLong(w, user, reply);
      } else {
        WindowedShort(w, user, reply);
        assert w == [w[0]] + w[1..];
      }
    }
    FramedShape(w, m, user, reply);
  }

  /** The first entry, a tail of the rest, then the exchange. */
  lemma FramedShape(w: seq<Message>, m: seq<Message>, user: Message, reply: Message)
    requires w != [] && |m| <= |w| - 1 && m == w[|w| - |m|..]
    ensures var n := [w[0]] + m + [user, reply];
      && |n| == |m| + 3 && n[0] == w[0] && n[|n| - 2] == user && n[|n| - 1] == reply
      && n[1..|n| - 2] == m
  {
    var n := [w[0]] + m + [user, reply];
    assert n[1..|n| - 2] == m;
  }

  lemma WindowedLong(w: seq<Message>, user: Message, reply: Message)
    requires |w| + 1 > MaxHistory * 2 + 1
    ensures Windowed(w + [user]) + [reply] == [w[0]] + w[|w| - (MaxHistory * 2 - 1)..] + [user, reply]
  {
    var u := w + [user];
    assert u[|u| - MaxHistory * 2..] == w[|w| - (MaxHistory * 2 - 1)..] + [user];
  }

  lemma WindowedShort(w: seq<Message>, user: Message, reply: Message)
    requires w != [] && |w| + 1 <= MaxHistory * 2 + 1
    ensures var n := Windowed(w + [user]) + [reply];
      n == w + [user, reply] && n[1..|n| - 2] == w[1..]
  {
    var n := Windowed(w + [user]) + [reply];
    assert n == w + [user, reply];
    assert n[1..|n| - 2] == w[1..];
  }

  /**
   * While the history is short nothing is dropped: the new prompt replaces
   * the old one and the exchange is added at the end.
   */
  lemma ShortHistoryKept(h: seq<Message>, systemPrompt: string, userInput: string, answer: string)
    requires h != [] && h[0].role == "system" && |h| <= MaxHistory * 2
    ensures NextHistory(h, systemPrompt, userInput, answer) ==
      [Message("system", systemPrompt)] + h[1..] + [Message("user", userInput), Message("assistant", answer)]
  {
    assert h[0 := h[0].(content := systemPrompt)] == [Message("system", systemPrompt)] + h[1..];
  }

  /** A full history loses its oldest exchange: the user message and answer right after the system message. */
  lemma FullHistoryDropsOldest(h: seq<Message>, systemPrompt: string, userInput: string, answer: string)
    requires h != [] && h[0].role == "system" && |h| == MaxHistory * 2 + 2
    ensures NextHistory(h, systemPrompt, userInput, answer) ==
      [Message("system", systemPrompt)] + h[3..] + [Message("user", userInput), Message("assistant", answer)]
  {
    var w := h[0 := h[0].(content := systemPrompt)];
    var u := w + [Message("user", userInput)];
    assert u[|u| - MaxHistory * 2..] == h[3..] + [Message("user", userInput)];
  }

  /** What handling one message did, besides changing the session. */
  datatype Outcome = SettingsShown | Cleared | Answered(thought: string, answer: string)

  /** One user's chat session: its history and the model chosen for it. */
  class ChatSession {
    var history: seq<Message>
    var model: string

    predicate Valid()
      reads this
    {
      WellShaped(history)
    }

    /** `start_chat`: an empty history and the model picked in the settings form, if any. */
    constructor (settings: Option<string>)
      ensures Valid()
      ensures history == [] && model == settings.GetOr(DefaultModel)
    {
      history := [];
      model := DefaultModel;
      if settings.Some? {
        model := settings.value;
      }
    }

    /** `on_settings_update` */
    method OnSettingsUpdate(choice: Option<string>)
      requires Valid()
      modifies this
      ensures Valid()
      ensures history == old(history) && model == choice.GetOr(old(model))
    {
      if choice.Some? {
        model := choice.value;
      }
    }

    /**
     * `main`, for the message `content`. The settings form's answer, the
     * prompt built from the retrieved context, and the model's streamed
     * chunks are parameters.
     */
    method HandleMessage(content: string, settings: Option<string>, systemPrompt: string, chunks: seq<string>)
      returns (outcome: Outcome)
      requires Valid()
      modifies this
      ensures Valid()
      ensures Command(content) == "/settings" ==>
        outcome == SettingsShown && history == old(history) && model == settings.GetOr(old(model))
      ensures Command(content) == "/clear" ==>
        outcome == Cleared && history == [] && model == old(model)
      ensures Command(content) != "/settings" && Command(content) != "/clear" ==>
        && model == old(model)
        && outcome == Answered(Joined(ThoughtTokens(model, chunks)), Joined(AnswerTokens(model, chunks)))
        && history == NextHistory(old(history), systemPrompt, StripSpace(content), outcome.answer)
    {
      var userInput := StripSpace(content);
      if Lower(userInput) == "/settings" {
        if settings.Some? {
          model := settings.value;
        }
        return SettingsShown;
      }
      if Lower(userInput) == "/clear" {
        history := [];
        return Cleared;
      }
      var thought, answer := Respond(userInput, systemPrompt, chunks);
      outcome := Answered(thought, answer);
    }

    /**
     * The ordinary-message branch of `main`: the prompt goes in as the
     * system message, the user's message is appended, the window is
     * applied, and the streamed answer is appended after it.
     */
    method Respond(userInput: string, systemPrompt: string, chunks: seq<string>) returns (thought: string, answer: string)
      requires Valid()
      modifies this
      ensures Valid()
      ensures model == old(model)
      ensures thought == Joined(ThoughtTokens(model, chunks)) && answer == Joined(AnswerTokens(model, chunks))
      ensures history == NextHistory(old(history), systemPrompt, userInput, answer)
    {
      var h := history;
      if h == [] || h[0].role != "system" {
        h := [Message("system", systemPrompt)] + h;
      } else {
        h := h[0 := h[0].(content := systemPrompt)];
      }
      assert h == WithSystem(old(history), systemPrompt);
      h := h + [Message("user", userInput)];
      ghost var appended := h;
      if |h| > MaxHistory * 2 + 1 {
        h := [h[0]] + h[|h| - MaxHistory * 2..];
      }
      assert h == Windowed(appended);
      thought, answer := StreamReply(model, chunks);
      h := h + [Message("assistant", answer)];
      assert h == NextHistory(old(history), systemPrompt, userInput, answer);
      history := h;
      NextHistorySpec(old(history), systemPrompt, userInput, answer);
    }
  }
}
