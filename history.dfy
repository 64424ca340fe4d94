/**
 * The context builder: the conversation handed to the model opens with the
 * prompt and a fixed acknowledgement, followed by the recently fetched channel
 * messages, oldest first, without commands, foreign bots and the trigger message.
 */
module ContextBuilder {
  import opened JsString

  /** A chat message as the bot sees it (incoming or fetched from the channel). */
  datatype Message = Message(id: string, authorId: string, authorIsBot: bool, channelId: string, content: string)

  datatype Role = User | Model

  /** One role-tagged turn of the conversation sent to the model. */
  datatype Turn = Turn(role: Role, text: string)

  /** Stand-in for the model's fixed acknowledgement turn. */
  const Acknowledgement: string := "<short in-character acknowledgement>"

  /** The two turns that open every conversation. */
  function Seed(systemPrompt: string): seq<Turn> {
    [Turn(User, systemPrompt), Turn(Model, Acknowledgement)]
  }

  /** A fetched message survives: it is no command, not from a bot other than this one, and not the trigger message. */
  predicate Kept(m: Message, triggerId: string, selfId: string) {
    !StartsWith(m.content, "!") && !(m.authorIsBot && m.authorId != selfId) && m.id != triggerId
  }

  /** The turn for a message: the model's own when this bot wrote it, the user's otherwise. */
  function TurnOf(m: Message, selfId: string): Turn {
    Turn(if m.authorId == selfId then Model else User, m.content)
  }

  /** The surviving messages, in their order. */
  function Retained(msgs: seq<Message>, triggerId: string, selfId: string): seq<Message>
  {
    if msgs == [] then []
    else
      var last := msgs[|msgs| - 1];
      Retained(msgs[..|msgs| - 1], triggerId, selfId) + (if Kept(last, triggerId, selfId) then [last] else [])
  }

  /** A message survives exactly when it is one of the messages and passes the filter. */
  lemma {:induction false} RetainedMembers(msgs: seq<Message>, triggerId: string, selfId: string, m: Message)
    ensures m in Retained(msgs, triggerId, selfId) <==> m in msgs && Kept(m, triggerId, selfId)
  {
    if msgs != [] {
      var init := msgs[..|msgs| - 1];
      RetainedMembers(init, triggerId, selfId, m);
      assert msgs == init + [msgs[|msgs| - 1]];
    }
  }

  /** The filter drops messages and never adds any. */
  lemma {:induction false} RetainedLength(msgs: seq<Message>, triggerId: string, selfId: string)
    ensures |Retained(msgs, triggerId, selfId)| <= |msgs|
  {
    if msgs != [] {
      RetainedLength(msgs[..|msgs| - 1], triggerId, selfId);
    }
  }

  /** The filter works message by message, so it keeps the relative order of the messages. */
  lemma {:induction false} RetainedAppend(a: seq<Message>, b: seq<Message>, triggerId: string, selfId: string)
    ensures Retained(a + b, triggerId, selfId) == Retained(a, triggerId, selfId) + Retained(b, triggerId, selfId)
    decreases |b|
  {
    if b == [] {
      assert a + b == a;
    } else {
      assert (a + b)[..|a + b| - 1] == a + b[..|b| - 1];
      RetainedAppend(a, b[..|b| - 1], triggerId, selfId);
    }
  }

  /** One turn per message. */
  function Turns(msgs: seq<Message>, selfId: string): seq<Turn>
  {
    seq(|msgs|, k requires 0 <= k < |msgs| => TurnOf(msgs[k], selfId))
  }

  /** Turns are made message by message. */
  lemma {:induction false} TurnsAppend(a: seq<Message>, b: seq<Message>, selfId: string)
    ensures Turns(a + b, selfId) == Turns(a, selfId) + Turns(b, selfId)
  {
    var t := Turns(a + b, selfId);
    assert |t| == |Turns(a, selfId) + Turns(b, selfId)|;
    forall k | 0 <= k < |t| ensures t[k] == (Turns(a, selfId) + Turns(b, selfId))[k] {
      if k < |a| {
        assert (a + b)[k] == a[k];
      } else {
        assert (a + b)[k] == b[k - |a|];
      }
    }
  }

  /** One more fetched message adds its turn exactly when it survives the filter. */
  lemma RetainedTurnsStep(msgs: seq<Message>, i: nat, triggerId: string, selfId: string)
    requires i < |msgs|
    ensures Turns(Retained(msgs[..i + 1], triggerId, selfId), selfId)
         == Turns(Retained(msgs[..i], triggerId, selfId), selfId)
            + (if Kept(msgs[i], triggerId, selfId) then [TurnOf(msgs[i], selfId)] else [])
  {
    assert msgs[..i + 1][..i] == msgs[..i];
    var before := Retained(msgs[..i], triggerId, selfId);
    var added := if Kept(msgs[i], triggerId, selfId) then [msgs[i]] else [];
    TurnsAppend(before, added, selfId);
  }

  /** The fetched messages come newest first; `reverse()` puts them oldest first. */
  function Reversed<T>(s: seq<T>): seq<T>
  {
    seq(|s|, k requires 0 <= k < |s| => s[|s| - 1 - k])
  }

  /** Reversing a concatenation reverses and swaps its parts. */
  lemma ReversedAppend<T>(a: seq<T>, b: seq<T>)
    ensures Reversed(a + b) == Reversed(b) + Reversed(a)
  {
    var r := Reversed(a + b);
    assert |r| == |Reversed(b) + Reversed(a)|;
    forall k | 0 <= k < |r| ensures r[k] == (Reversed(b) + Reversed(a))[k] {
      if k < |b| {
        assert (a + b)[|a + b| - 1 - k] == b[|b| - 1 - k];
      } else {
        assert (a + b)[|a + b| - 1 - k] == a[|a| - 1 - (k - |b|)];
      }
    }
  }

  /** The conversation handed to the model, for messages `fetched` newest first. */
  function History(systemPrompt: string, fetched: seq<Message>, triggerId: string, selfId: string): seq<Turn> {
    Seed(systemPrompt) + Turns(Retained(Reversed(fetched), triggerId, selfId), selfId)
  }

  /**
   * Builds `newHistory`: the seed turns, then one pushed turn per surviving
   * message after reversing the fetched messages.
   */
  method BuildHistory(systemPrompt: string, fetched: seq<Message>, triggerId: string, selfId: string)
    returns (history: seq<Turn>)
    ensures history == History(systemPrompt, fetched, triggerId, selfId)
  {
    history := [Turn(User, systemPrompt), Turn(Model, Acknowledgement)];
    var prevMessages := Reversed(fetched);
    ghost var pushed: seq<Turn> := [];
    for i := 0 to |prevMessages|
      invariant pushed == Turns(Retained(prevMessages[..i], triggerId, selfId), selfId)
      invariant history == Seed(systemPrompt) + pushed
    {
      var msg := prevMessages[i];
      RetainedTurnsStep(prevMessages, i, triggerId, selfId);
      if StartsWith(msg.content, "!") {
        continue;
      }
      if msg.authorIsBot && msg.authorId != selfId {
        continue;
      }
      var role := if msg.authorId == selfId then Model else User;
      if msg.id != triggerId {
        assert (Seed(systemPrompt) + pushed) + [Turn(role, msg.content)] == Seed(systemPrompt) + (pushed + [Turn(role, msg.content)]);
        history := history + [Turn(role, msg.content)];
        pushed := pushed + [Turn(role, msg.content)];
      }
    }
    assert prevMessages[..|prevMessages|] == prevMessages;
  }

  /**
   * The history opens with (user, prompt) and (model, acknowledgement); every
   * further turn comes from a surviving fetched message, oldest first, and so
   * there are at most as many of them as fetched messages. No such turn is a
   * command, and a turn is the model's exactly when this bot wrote the message.
   */
  lemma HistoryShape(systemPrompt: string, fetched: seq<Message>, triggerId: string, selfId: string)
    ensures var h := History(systemPrompt, fetched, triggerId, selfId);
      var kept := Retained(Reversed(fetched), triggerId, selfId);
      && |h| == 2 + |kept| <= 2 + |fetched|
      && h[0] == Turn(User, systemPrompt) && h[1] == Turn(Model, Acknowledgement)
      && (forall k :: 0 <= k < |kept| ==>
            && kept[k] in fetched
            && Kept(kept[k], triggerId, selfId)
            && h[2 + k].text == kept[k].content
            && !StartsWith(h[2 + k].text, "!")
            && (h[2 + k].role == Model <==> kept[k].authorId == selfId))
  {
    var r := Reversed(fetched);
    var kept := Retained(r, triggerId, selfId);
    var turns := Turns(kept, selfId);
    var h := History(systemPrompt, fetched, triggerId, selfId);
    assert h == Seed(systemPrompt) + turns;
    RetainedLength(r, triggerId, selfId);
    forall k | 0 <= k < |kept|
      ensures kept[k] in fetched && Kept(kept[k], triggerId, selfId)
      ensures h[2 + k] == TurnOf(kept[k], selfId)
    {
      assert kept[k] in kept;
      RetainedMembers(r, triggerId, selfId, kept[k]);
      var j :| 0 <= j < |r| && r[j] == kept[k];
      assert r[j] == fetched[|fetched| - 1 - j];
      assert h[2 + k] == turns[k];
    }
  }

  /**
   * A conversation that opens with the prompt and the acknowledgement, and whose
   * every further turn is the text of a fetched message other than the trigger
   * message, and no command.
   */
  ghost predicate SeededFromFetched(h: seq<Turn>, systemPrompt: string, fetched: seq<Message>, triggerId: string) {
    && |h| >= 2
    && h[0] == Turn(User, systemPrompt)
    && h[1] == Turn(Model, Acknowledgement)
    && forall k :: 2 <= k < |h| ==>
         && !StartsWith(h[k].text, "!")
         && exists m :: m in fetched && m.id != triggerId && m.content == h[k].text
  }

  /** The built conversation opens with the seed, and every further turn is a fetched message's text, never a command, never the trigger message. */
  lemma HistoryTurnsFromFetched(systemPrompt: string, fetched: seq<Message>, triggerId: string, selfId: string)
    ensures SeededFromFetched(History(systemPrompt, fetched, triggerId, selfId), systemPrompt, fetched, triggerId)
  {
    HistoryShape(systemPrompt, fetched, triggerId, selfId);
    var kept := Retained(Reversed(fetched), triggerId, selfId);
    var h := History(systemPrompt, fetched, triggerId, selfId);
    forall k | 2 <= k < |h|
      ensures !StartsWith(h[k].text, "!")
      ensures exists m :: m in fetched && m.id != triggerId && m.content == h[k].text
    {
      var m := kept[k - 2];
      assert m in fetched && Kept(m, triggerId, selfId) && m.content == h[k].text;
    }
  }

  /** A message that survives the filter, reached in oldest-first order, is appended after those before it. */
  lemma HistoryAppendsInOrder(systemPrompt: string, older: seq<Message>, newer: seq<Message>, triggerId: string, selfId: string)
    ensures History(systemPrompt, newer + older, triggerId, selfId)
         == History(systemPrompt, older, triggerId, selfId)
            + Turns(Retained(Reversed(newer), triggerId, selfId), selfId)
  {
    ReversedAppend(newer, older);
    RetainedAppend(Reversed(older), Reversed(newer), triggerId, selfId);
    var a := Retained(Reversed(older), triggerId, selfId);
    var b := Retained(Reversed(newer), triggerId, selfId);
    TurnsAppend(a, b, selfId);
    assert Seed(systemPrompt) + (Turns(a, selfId) + Turns(b, selfId)) == (Seed(systemPrompt) + Turns(a, selfId)) + Turns(b, selfId);
  }
}
