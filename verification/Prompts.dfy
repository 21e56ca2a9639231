/** Canonical prompts: the router's buffer-appending form and the engine's join. */
module Prompts {
  import opened Wrappers

  datatype Message = Message(role: string, content: string)

  function Line(m: Message): string {
    m.role + ": " + m.content
  }

  /** One line per message, joined by newlines, built from the first message on. */
  function Canonical(messages: seq<Message>): string {
    if |messages| == 0 then ""
    else if |messages| == 1 then Line(messages[0])
    else Canonical(messages[..|messages| - 1]) + "\n" + Line(messages[|messages| - 1])
  }

  method CanonicalPrompt(messages: seq<Message>) returns (prompt: string)
    ensures prompt == Canonical(messages)
  {
    prompt := "";
    for index := 0 to |messages|
      invariant prompt == Canonical(messages[..index])
    {
      if index > 0 {
        prompt := prompt + "\n";
      }
      prompt := prompt + messages[index].role;
      prompt := prompt + ": ";
      prompt := prompt + messages[index].content;
      CanonicalSnoc(messages[..index], messages[index]);
      assert messages[..index + 1] == messages[..index] + [messages[index]];
    }
    assert messages[..|messages|] == messages;
  }

  lemma CanonicalSnoc(messages: seq<Message>, m: Message)
    ensures Canonical(messages + [m]) ==
            if messages == [] then m.role + ": " + m.content
            else Canonical(messages) + "\n" + m.role + ": " + m.content
  {
    var all := messages + [m];
    assert all[..|all| - 1] == messages;
    assert Canonical(messages) + "\n" + Line(m) == Canonical(messages) + "\n" + m.role + ": " + m.content;
  }

  /** A conversation that goes on keeps the prompt of its beginning as a prefix. */
  lemma {:induction false} CanonicalExtends(messages: seq<Message>, more: seq<Message>)
    ensures Canonical(messages) <= Canonical(messages + more)
  {
    if more == [] {
      assert messages + more == messages;
    } else {
      var init, last := more[..|more| - 1], more[|more| - 1];
      CanonicalExtends(messages, init);
      CanonicalSnoc(messages + init, last);
      assert messages + more == (messages + init) + [last];
    }
  }

  // ---------------------------------------------------------------------------------------------
  // The engine's side: messages whose content is not a string are skipped, absent roles are empty.
  // ---------------------------------------------------------------------------------------------

  datatype RawMessage = RawMessage(role: Option<string>, content: Option<string>)

  function Join(lines: seq<string>, separator: string): string {
    if lines == [] then ""
    else if |lines| == 1 then lines[0]
    else lines[0] + separator + Join(lines[1..], separator)
  }

  function EngineLines(messages: seq<RawMessage>): seq<string> {
    if messages == [] then []
    else if messages[0].content.None? then EngineLines(messages[1..])
    else
      var role := match messages[0].role case Some(r) => r case None => "";
      [role + ": " + messages[0].content.value] + EngineLines(messages[1..])
  }

  function EngineCanonical(messages: seq<RawMessage>): string {
    Join(EngineLines(messages), "\n")
  }

  function Raw(messages: seq<Message>): seq<RawMessage> {
    seq(|messages|, i requires 0 <= i < |messages| => RawMessage(Some(messages[i].role), Some(messages[i].content)))
  }

  lemma {:induction false} JoinSnoc(lines: seq<string>, line: string, separator: string)
    requires lines != []
    ensures Join(lines + [line], separator) == Join(lines, separator) + separator + line
  {
    var all := lines + [line];
    if |lines| == 1 {
      assert all[1..] == [line];
    } else {
      JoinSnoc(lines[1..], line, separator);
      assert all[1..] == lines[1..] + [line];
    }
  }

  lemma {:induction false} EngineLinesSnoc(messages: seq<RawMessage>, m: RawMessage)
    ensures EngineLines(messages + [m]) == EngineLines(messages) + EngineLines([m])
  {
    if messages == [] {
      assert messages + [m] == [m];
    } else {
      EngineLinesSnoc(messages[1..], m);
      assert (messages + [m])[1..] == messages[1..] + [m];
    }
  }

  /** On the engine's side a message whose content is not text leaves no trace, wherever it stands, and one
    * without a role has the empty one.
    */
  lemma {:induction false} NoTextNoTrace(before: seq<RawMessage>, m: RawMessage, after: seq<RawMessage>)
    requires m.content.None?
    ensures EngineCanonical(before + [m] + after) == EngineCanonical(before + after)
    ensures EngineLines(before + [m] + after) == EngineLines(before + after)
  {
    if before == [] {
      assert ([m] + after)[1..] == after;
      assert before + [m] + after == [m] + after && before + after == after;
    } else {
      NoTextNoTrace(before[1..], m, after);
      assert (before + [m] + after)[1..] == before[1..] + [m] + after;
      assert (before + after)[1..] == before[1..] + after;
    }
  }

  lemma NoRoleIsEmpty(content: string)
    ensures EngineCanonical([RawMessage(None, Some(content))]) == EngineCanonical([RawMessage(Some(""), Some(content))])
    ensures EngineCanonical([RawMessage(None, Some(content))]) == ": " + content
  {
    var a, b := [RawMessage(None, Some(content))], [RawMessage(Some(""), Some(content))];
    assert a[1..] == [] && b[1..] == [];
    assert "" + ": " == ": ";
    assert EngineLines(a[1..]) == [] && EngineLines(b[1..]) == [];
  }

  /** Router and engine see the same prompt text for every request the router accepts. */
  lemma {:induction false} BothSidesAgree(messages: seq<Message>)
    ensures EngineCanonical(Raw(messages)) == Canonical(messages)
    ensures messages != [] ==> EngineLines(Raw(messages)) != []
  {
    if messages != [] {
      var init, last := messages[..|messages| - 1], messages[|messages| - 1];
      BothSidesAgree(init);
      var raw := RawMessage(Some(last.role), Some(last.content));
      assert Raw(messages) == Raw(init) + [raw];
      EngineLinesSnoc(Raw(init), raw);
      assert EngineLines([raw]) == [Line(last)] by { assert [raw][1..] == []; }
      if init != [] {
        JoinSnoc(EngineLines(Raw(init)), Line(last), "\n");
      } else {
        assert Raw(init) == [] && EngineLines(Raw(messages)) == [Line(last)];
      }
    }
  }
}
