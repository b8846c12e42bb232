/**
 * emergency_bot: greet, then loop {capture, transcribe, re-prompt on an empty
 * transcript or record the caller's turn, ask the agent, speak its reply,
 * record it, stop once the reply contains the closing phrase}; then speak the
 * closing line and save the transcript once.
 *
 * The capture and the speech-to-text engine are one scripted input: the
 * engine's raw answer for each capture, in order.  The dialogue agent is a
 * function of the conversation it is sent.  Speech output is a log of what
 * was said and in which language.
 */
module Orchestrator {
  import opened Text
  import opened Transcription
  import opened Report

  const Greeting: string := "Hello, this is the emergency helpline. Please tell me what happened."
  const Reprompt: string := "I did not catch that. Please repeat."
  const ClosingLine: string := "Thank you for calling. Help is on the way."
  const ClosingPhrase: string := "help is on the way"

  /** One utterance of the speech synthesiser: a text and its language. */
  datatype Speech = Speech(text: string, language: string)

  /** A reply closes the call when its lower-cased text contains the
      closing phrase. */
  predicate IsClosing(reply: string) {
    Contains(Lower(reply), ClosingPhrase)
  }

  predicate PhraseAt(reply: string, i: int) {
    0 <= i <= |reply| - |ClosingPhrase| && Lower(reply[i..i + |ClosingPhrase|]) == ClosingPhrase
  }

  /** The termination test is a case-insensitive search for the phrase: a
      reply closes the call exactly when some stretch of it lower-cases to
      the phrase. */
  lemma {:induction false} ClosingIsCaseInsensitive(reply: string)
    ensures IsClosing(reply) <==> exists i :: PhraseAt(reply, i)
  {
    var low := Lower(reply);
    ContainsOccurrence(low, ClosingPhrase);
    forall i | 0 <= i <= |reply| - |ClosingPhrase|
      ensures OccursAt(low, ClosingPhrase, i) <==> PhraseAt(reply, i)
    {
      LowerSlice(reply, i, i + |ClosingPhrase|);
    }
    if IsClosing(reply) {
      var i :| OccursAt(low, ClosingPhrase, i);
      assert PhraseAt(reply, i);
    }
    if exists i :: PhraseAt(reply, i) {
      var i :| PhraseAt(reply, i);
      assert OccursAt(low, ClosingPhrase, i);
    }
  }

  /** The caller speaks first and the roles alternate. */
  predicate Alternates(c: seq<Message>) {
    forall k :: 0 <= k < |c| ==> c[k].role == (if k % 2 == 0 then User else Assistant)
  }

  /** No two consecutive messages share a role. */
  lemma {:induction false} AlternatesNoRepeat(c: seq<Message>)
    requires Alternates(c)
    ensures forall k :: 0 < k < |c| ==> c[k].role != c[k - 1].role
  {
    forall k | 0 < k < |c| ensures c[k].role != c[k - 1].role {
      assert (k % 2 == 0) != ((k - 1) % 2 == 0);
    }
  }

  /** Each agent reply is what the agent answered to the whole history up to
      and including the caller turn before it. */
  predicate FollowsAgent(c: seq<Message>, agent: seq<Message> -> string) {
    forall j :: 0 <= j < |c| && j % 2 == 1 ==> AnswersHistory(c, j, agent)
  }

  predicate AnswersHistory(c: seq<Message>, j: nat, agent: seq<Message> -> string)
    requires j < |c|
  {
    c[j].content == agent(c[..j])
  }

  /** Among the agent's replies only the last can contain the closing
      phrase, and it does exactly when the call is closed. */
  predicate ClosesAtEnd(c: seq<Message>, closed: bool) {
    forall j :: 0 <= j < |c| && j % 2 == 1 ==> (ReplyCloses(c, j) <==> closed && j == |c| - 1)
  }

  predicate ReplyCloses(c: seq<Message>, j: nat)
    requires j < |c|
  {
    IsClosing(c[j].content)
  }

  /** The caller's texts in the conversation, in order. */
  function UserTexts(c: seq<Message>): seq<string> {
    if c == [] then []
    else UserTexts(c[..|c| - 1]) + (if c[|c| - 1].role == User then [c[|c| - 1].content] else [])
  }

  /** The agent's replies in the conversation, in order. */
  function AgentTexts(c: seq<Message>): seq<string> {
    if c == [] then []
    else AgentTexts(c[..|c| - 1]) + (if c[|c| - 1].role == Assistant then [c[|c| - 1].content] else [])
  }

  /** The texts of the non-blank transcripts, in order: what the caller said. */
  function CallerTexts(heard: seq<RawResult>): seq<string> {
    if heard == [] then []
    else
      var t := PostProcess(heard[|heard| - 1]);
      CallerTexts(heard[..|heard| - 1]) + (if IsBlank(t) then [] else [t.text])
  }

  /** Consuming one more transcript adds its text unless it is blank. */
  lemma {:induction false} CallerTextsStep(heard: seq<RawResult>, n: nat)
    requires n < |heard|
    ensures var t := PostProcess(heard[n]);
      CallerTexts(heard[..n + 1]) == CallerTexts(heard[..n]) + (if IsBlank(t) then [] else [t.text])
  {
    assert heard[..n + 1][..n] == heard[..n];
  }

  /** A caller who says nothing adds nothing to the conversation. */
  lemma {:induction false} SilentCallerSaysNothing(heard: seq<RawResult>)
    requires forall k :: 0 <= k < |heard| ==> AllSpace(heard[k].text)
    ensures CallerTexts(heard) == []
  {
    if heard != [] {
      BlankIffWhitespace(heard[|heard| - 1]);
      SilentCallerSaysNothing(heard[..|heard| - 1]);
    }
  }

  /** What is spoken while consuming the transcripts, given the agent's
      replies: the re-prompt, in the transcript's own language, after a blank
      transcript; otherwise the next reply, in Hindi or English. */
  function Speeches(heard: seq<RawResult>, replies: seq<string>): seq<Speech>
    requires |replies| == |CallerTexts(heard)|
  {
    if heard == [] then []
    else
      var init := heard[..|heard| - 1];
      var t := PostProcess(heard[|heard| - 1]);
      if IsBlank(t) then Speeches(init, replies) + [Speech(Reprompt, t.language)]
      else Speeches(init, replies[..|replies| - 1]) + [Speech(replies[|replies| - 1], SynthesisLanguage(t.language))]
  }

  lemma {:induction false} RepromptStep(heard: seq<RawResult>, n: nat, replies: seq<string>)
    requires n < |heard| && |replies| == |CallerTexts(heard[..n])|
    requires IsBlank(PostProcess(heard[n]))
    ensures |replies| == |CallerTexts(heard[..n + 1])|
    ensures Speeches(heard[..n + 1], replies)
         == Speeches(heard[..n], replies) + [Speech(Reprompt, PostProcess(heard[n]).language)]
  {
    assert heard[..n + 1][..n] == heard[..n];
  }

  lemma {:induction false} ReplyStep(heard: seq<RawResult>, n: nat, replies: seq<string>, reply: string)
    requires n < |heard| && |replies| == |CallerTexts(heard[..n])|
    requires !IsBlank(PostProcess(heard[n]))
    ensures |replies + [reply]| == |CallerTexts(heard[..n + 1])|
    ensures Speeches(heard[..n + 1], replies + [reply])
         == Speeches(heard[..n], replies) + [Speech(reply, SynthesisLanguage(PostProcess(heard[n]).language))]
  {
    assert heard[..n + 1][..n] == heard[..n];
    assert (replies + [reply])[..|replies|] == replies;
  }

  /** Every transcript consumed is answered by exactly one speech. */
  lemma {:induction false} SpeechesLength(heard: seq<RawResult>, replies: seq<string>)
    requires |replies| == |CallerTexts(heard)|
    ensures |Speeches(heard, replies)| == |heard|
  {
    if heard != [] {
      var init := heard[..|heard| - 1];
      if IsBlank(PostProcess(heard[|heard| - 1])) {
        SpeechesLength(init, replies);
      } else {
        SpeechesLength(init, replies[..|replies| - 1]);
      }
    }
  }

  lemma {:induction false} AlternatingCounts(c: seq<Message>)
    requires Alternates(c)
    ensures |UserTexts(c)| == (|c| + 1) / 2 && |AgentTexts(c)| == |c| / 2
  {
    if c != [] {
      AlternatingCounts(c[..|c| - 1]);
    }
  }

  lemma {:induction false} UserTextsAt(c: seq<Message>, j: nat)
    requires Alternates(c) && j < |c| && j % 2 == 0
    ensures |UserTexts(c)| > j / 2 && UserTexts(c)[j / 2] == c[j].content
  {
    var init := c[..|c| - 1];
    AlternatingCounts(c);
    AlternatingCounts(init);
    if j < |c| - 1 {
      UserTextsAt(init, j);
    }
  }

  /** Two such conversations that agree before position j agree at j: a
      caller message is fixed by the caller texts, a reply by the agent. */
  lemma {:induction false} SameAt(c1: seq<Message>, c2: seq<Message>, agent: seq<Message> -> string, j: nat)
    requires Alternates(c1) && FollowsAgent(c1, agent)
    requires Alternates(c2) && FollowsAgent(c2, agent)
    requires |c1| == |c2| && UserTexts(c1) == UserTexts(c2)
    requires j < |c1| && c1[..j] == c2[..j]
    ensures c1[j] == c2[j]
  {
    if j % 2 == 0 {
      UserTextsAt(c1, j);
      UserTextsAt(c2, j);
    } else {
      assert AnswersHistory(c1, j, agent) && AnswersHistory(c2, j, agent);
    }
  }

  /** Even-length alternating conversations with the same caller texts
      have the same length. */
  lemma {:induction false} SameLength(c1: seq<Message>, c2: seq<Message>)
    requires Alternates(c1) && |c1| % 2 == 0 && Alternates(c2) && |c2| % 2 == 0
    requires UserTexts(c1) == UserTexts(c2)
    ensures |c1| == |c2|
  {
    AlternatingCounts(c1);
    AlternatingCounts(c2);
  }

  /** The conversation is determined by what the caller said and by the
      agent: two alternating conversations of even length with the same
      caller texts, both following the agent, are equal. */
  lemma {:induction false} ConversationDetermined(c1: seq<Message>, c2: seq<Message>, agent: seq<Message> -> string)
    requires Alternates(c1) && |c1| % 2 == 0 && FollowsAgent(c1, agent)
    requires Alternates(c2) && |c2| % 2 == 0 && FollowsAgent(c2, agent)
    requires UserTexts(c1) == UserTexts(c2)
    ensures c1 == c2
  {
    SameLength(c1, c2);
    PrefixesAgree(c1, c2, agent, |c1|);
    assert c1 == c1[..|c1|];
    assert c2 == c2[..|c2|];
  }

  lemma {:induction false} PrefixesAgree(c1: seq<Message>, c2: seq<Message>, agent: seq<Message> -> string, n: nat)
    requires Alternates(c1) && FollowsAgent(c1, agent)
    requires Alternates(c2) && FollowsAgent(c2, agent)
    requires |c1| == |c2| && UserTexts(c1) == UserTexts(c2)
    requires n <= |c1|
    ensures c1[..n] == c2[..n]
  {
    if n > 0 {
      PrefixesAgree(c1, c2, agent, n - 1);
      SameAt(c1, c2, agent, n - 1);
      assert c1[..n] == c1[..n - 1] + [c1[n - 1]];
      assert c2[..n] == c2[..n - 1] + [c2[n - 1]];
    }
  }

  /** One completed turn, a caller message and the agent's answer to the
      history up to it, keeps every property of the conversation. */
  lemma {:induction false} CompletedTurn(before: seq<Message>, text: string, agent: seq<Message> -> string)
    requires Alternates(before) && |before| % 2 == 0 && FollowsAgent(before, agent)
    requires ClosesAtEnd(before, false)
    ensures var asked := before + [Message(User, text)];
            var reply := agent(asked);
            var after := asked + [Message(Assistant, reply)];
            && Alternates(after) && |after| % 2 == 0 && FollowsAgent(after, agent)
            && ClosesAtEnd(after, IsClosing(reply))
            && UserTexts(after) == UserTexts(before) + [text]
            && AgentTexts(after) == AgentTexts(before) + [reply]
  {
    var asked := before + [Message(User, text)];
    var reply := agent(asked);
    var after := asked + [Message(Assistant, reply)];
    TurnAlternates(before, text, reply);
    TurnFollows(before, text, agent);
    TurnCloses(before, text, reply);
    assert after[..|after| - 1] == asked;
    assert asked[..|asked| - 1] == before;
  }

  lemma {:induction false} TurnAlternates(before: seq<Message>, text: string, reply: string)
    requires Alternates(before) && |before| % 2 == 0
    ensures Alternates(before + [Message(User, text)] + [Message(Assistant, reply)])
  {
    var after := before + [Message(User, text)] + [Message(Assistant, reply)];
    forall k | 0 <= k < |after|
      ensures after[k].role == (if k % 2 == 0 then User else Assistant)
    {
      if k < |before| {
        assert after[k] == before[k];
      }
    }
  }

  lemma {:induction false} TurnFollows(before: seq<Message>, text: string, agent: seq<Message> -> string)
    requires FollowsAgent(before, agent) && |before| % 2 == 0
    ensures var asked := before + [Message(User, text)];
            FollowsAgent(asked + [Message(Assistant, agent(asked))], agent)
  {
    var asked := before + [Message(User, text)];
    var after := asked + [Message(Assistant, agent(asked))];
    forall j | 0 <= j < |after| && j % 2 == 1 ensures AnswersHistory(after, j, agent) {
      if j < |before| {
        assert AnswersHistory(before, j, agent);
        assert after[..j] == before[..j];
      } else {
        assert j == |after| - 1;
        assert after[..j] == asked;
      }
    }
  }

  lemma {:induction false} TurnCloses(before: seq<Message>, text: string, reply: string)
    requires ClosesAtEnd(before, false) && |before| % 2 == 0
    ensures var after := before + [Message(User, text)] + [Message(Assistant, reply)];
            ClosesAtEnd(after, IsClosing(reply))
  {
    var after := before + [Message(User, text)] + [Message(Assistant, reply)];
    forall j | 0 <= j < |after| && j % 2 == 1
      ensures ReplyCloses(after, j) <==> IsClosing(reply) && j == |after| - 1
    {
      if j < |before| {
        assert after[j] == before[j];
        assert !ReplyCloses(before, j);
      } else {
        assert j == |after| - 1;
      }
    }
  }

  /** What holds of the call after consuming `used` transcripts: the
      conversation alternates from the caller in pairs, its caller texts are
      the non-blank transcripts, its replies follow the agent and only the
      last may close the call, on the last transcript consumed. */
  predicate Progress(heard: seq<RawResult>, used: nat, agent: seq<Message> -> string,
                     c: seq<Message>, closed: bool)
    requires used <= |heard|
  {
    && Alternates(c) && |c| % 2 == 0
    && UserTexts(c) == CallerTexts(heard[..used])
    && |AgentTexts(c)| == |CallerTexts(heard[..used])|
    && FollowsAgent(c, agent)
    && (closed ==> |c| >= 2)
    && ClosesAtEnd(c, closed)
    // the loop stops right after the transcript that drew the closing reply
    && (closed ==> 0 < used && !IsBlank(PostProcess(heard[used - 1])))
  }

  /** The speech log after consuming `used` transcripts: the greeting, then
      one speech per transcript. */
  predicate SpokenSoFar(heard: seq<RawResult>, used: nat, c: seq<Message>, spoken: seq<Speech>)
    requires used <= |heard|
  {
    |AgentTexts(c)| == |CallerTexts(heard[..used])|
    && spoken == [Speech(Greeting, "en")] + Speeches(heard[..used], AgentTexts(c))
  }

  /** A blank transcript: only the re-prompt is spoken. */
  lemma {:induction false} BlankTurn(heard: seq<RawResult>, used: nat, agent: seq<Message> -> string,
                  c: seq<Message>, spoken: seq<Speech>)
    requires used < |heard| && Progress(heard, used, agent, c, false) && SpokenSoFar(heard, used, c, spoken)
    requires IsBlank(PostProcess(heard[used]))
    ensures Progress(heard, used + 1, agent, c, false)
    ensures SpokenSoFar(heard, used + 1, c, spoken + [Speech(Reprompt, PostProcess(heard[used]).language)])
  {
    CallerTextsStep(heard, used);
    RepromptStep(heard, used, AgentTexts(c));
  }

  /** A non-blank transcript: its text and the agent's reply are appended,
      the reply is spoken, and the call closes exactly when the reply
      contains the phrase. */
  lemma {:induction false} SpokenTurn(heard: seq<RawResult>, used: nat, agent: seq<Message> -> string,
                   c: seq<Message>, spoken: seq<Speech>)
    requires used < |heard| && Progress(heard, used, agent, c, false) && SpokenSoFar(heard, used, c, spoken)
    requires !IsBlank(PostProcess(heard[used]))
    ensures var t := PostProcess(heard[used]);
            var asked := c + [Message(User, t.text)];
            var reply := agent(asked);
            && Progress(heard, used + 1, agent, asked + [Message(Assistant, reply)], IsClosing(reply))
            && SpokenSoFar(heard, used + 1, asked + [Message(Assistant, reply)],
                           spoken + [Speech(reply, SynthesisLanguage(t.language))])
  {
    var t := PostProcess(heard[used]);
    var asked := c + [Message(User, t.text)];
    var reply := agent(asked);
    CallerTextsStep(heard, used);
    CompletedTurn(c, t.text, agent);
    ReplyStep(heard, used, AgentTexts(c), reply);
    assert |asked + [Message(Assistant, reply)]| >= 2;
  }

  /** The state of one call: the conversation report, everything spoken, and
      every transcript file saved. */
  class CallSession {
    var conversation: seq<Message>
    var spoken: seq<Speech>
    var saved: seq<ReportFile>

    constructor ()
      ensures conversation == [] && spoken == [] && saved == []
    {
      conversation := [];
      spoken := [];
      saved := [];
    }

    /** Speaks one text in one language. */
    method Speak(text: string, language: string)
      modifies this
      ensures spoken == old(spoken) + [Speech(text, language)]
      ensures conversation == old(conversation) && saved == old(saved)
    {
      spoken := spoken + [Speech(text, language)];
    }

    /** Adds one message to the end of the conversation. */
    method Append(m: Message)
      modifies this
      ensures conversation == old(conversation) + [m]
      ensures spoken == old(spoken) && saved == old(saved)
    {
      conversation := conversation + [m];
    }

    /** Saves the transcript of the current conversation, named after the
        given minute. */
    method Save(now: Timestamp)
      modifies this
      ensures saved == old(saved) + [ReportFile(FileName(now), ReportText(FormatTimestamp(now), conversation))]
      ensures conversation == old(conversation) && spoken == old(spoken)
    {
      var file := SaveReport(now, conversation);
      saved := saved + [file];
    }
  }

  /** The `while True` loop of emergency_bot, from just after the greeting
      until the agent closes the call or the script runs out. */
  method Listen(session: CallSession, heard: seq<RawResult>, agent: seq<Message> -> string)
    returns (closed: bool, used: nat)
    requires session.conversation == [] && session.spoken == [Speech(Greeting, "en")]
    modifies session
    ensures used <= |heard| && (!closed ==> used == |heard|)
    ensures Progress(heard, used, agent, session.conversation, closed)
    ensures SpokenSoFar(heard, used, session.conversation, session.spoken)
    ensures session.saved == old(session.saved)
  {
    closed := false;
    used := 0;
    while used < |heard| && !closed
      invariant used <= |heard|
      invariant Progress(heard, used, agent, session.conversation, closed)
      invariant SpokenSoFar(heard, used, session.conversation, session.spoken)
      invariant session.saved == old(session.saved)
    {
      var t := PostProcess(heard[used]);
      if IsBlank(t) {
        BlankTurn(heard, used, agent, session.conversation, session.spoken);
        session.Speak(Reprompt, t.language);
      } else {
        SpokenTurn(heard, used, agent, session.conversation, session.spoken);
        session.Append(Message(User, t.text));
        var reply := agent(session.conversation);
        session.Speak(reply, SynthesisLanguage(t.language));
        session.Append(Message(Assistant, reply));
        closed := IsClosing(reply);
      }
      used := used + 1;
    }
  }

  /** emergency_bot over the scripted transcripts.  The source listens for
      ever until the agent closes the call; when the script runs out first,
      the model returns with closed false and has neither closed nor saved.
      used is the number of transcripts consumed. */
  method EmergencyBot(heard: seq<RawResult>, agent: seq<Message> -> string, now: Timestamp)
    returns (session: CallSession, closed: bool, used: nat)
    ensures fresh(session)
    ensures used <= |heard| && (!closed ==> used == |heard|)
    // the conversation alternates from the caller in pairs, one pair per
    // non-blank transcript; the call closes on the first reply containing
    // the phrase, and only then; one speech per transcript between the
    // greeting and the closing line
    ensures Progress(heard, used, agent, session.conversation, closed)
    ensures |AgentTexts(session.conversation)| == |CallerTexts(heard[..used])|
    ensures session.spoken == [Speech(Greeting, "en")]
                              + Speeches(heard[..used], AgentTexts(session.conversation))
                              + (if closed then [Speech(ClosingLine, "en")] else [])
    // saved once, after the loop, with the final conversation
    ensures session.saved == if closed then [ReportFile(FileName(now), ReportText(FormatTimestamp(now), session.conversation))]
                             else []
  {
    session := new CallSession();
    session.Speak(Greeting, "en");
    closed, used := Listen(session, heard, agent);
    if closed {
      session.Speak(ClosingLine, "en");
      session.Save(now);
    }
  }
}
