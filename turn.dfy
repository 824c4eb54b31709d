/** One chat turn as a pure function of the loaded session, the request and
    the answers of the two external language-model calls. */
module Turn {
  import opened Text
  import opened Facts
  import opened ProgressEstimator
  import opened Completion
  import opened Fences

  datatype Role = User | Assistant

  /** One transcript entry: `{"role": ..., "content": ...}`. */
  datatype Message = Message(role: Role, content: string)

  /** A stored session row: transcript, profile, completion flag and the
      creation stamp that orders the session listing. */
  datatype Session = Session(history: seq<Message>, profile: map<string, string>, complete: bool, created: nat)

  /** What a service call is shown: the recent transcript, the latest user
      message and the profile. */
  datatype ServiceRequest = ServiceRequest(context: seq<Message>, latest: string, profile: map<string, string>)

  /** The outcome of a language-model call: an exception, or its text. */
  datatype ServiceReply = ServiceFault | ServiceText(text: string)

  /** The outcome of `json.loads` on the cleaned extraction text. */
  datatype Parsed = Malformed | NotAnObject | Object(fields: map<string, string>)

  datatype ChatRequest = ChatRequest(sessionId: string, message: string, isFirstMessage: bool)
  datatype ChatResponse = ChatResponse(question: string, isComplete: bool, progress: nat, sessionId: string)

  /** A turn either fails with an unhandled exception, in which case nothing is
      saved, or finishes with the session to save and the reply to send. */
  datatype TurnResult = Aborted | Finished(session: Session, question: string, progress: nat)

  const Greeting: string := "Hey, what's up? Tell me a bit about yourself to get started."
  /** The fixed apology, written as two literals: facts about which letters
      it holds are proved on the halves, which keeps each proof small. */
  const Apology: string := "Sorry, something went wrong. " + "Can you say that again?"

  /** How many transcript entries each service call is shown. */
  const ExtractionWindow: nat := 4
  const GenerationWindow: nat := 10

  function NewSession(created: nat): Session {
    Session([], map[], false, created)
  }

  /** `history[-n:]`: the last `n` entries, or all of them when there are fewer. */
  function Recent(history: seq<Message>, n: nat): (w: seq<Message>)
    ensures |w| == Min(n, |history|)
    ensures history == history[..|history| - |w|] + w
  {
    history[|history| - Min(n, |history|)..]
  }

  /** The response sent when the turn fails. */
  function Fallback(sessionId: string): ChatResponse {
    ChatResponse(Apology, false, 0, sessionId)
  }

  /** Whether the message has any text once stripped. */
  predicate IsBlank(message: string) {
    Trim(message) == ""
  }

  /** The transcript once the user's message, unstripped, has been added. */
  function WithUserMessage(history: seq<Message>, message: string): seq<Message> {
    if IsBlank(message) then history else history + [Message(User, message)]
  }

  /** The candidate facts of an extraction call: a fault or unparsable text
      gives none, and a JSON value other than an object makes the turn fail. */
  function ExtractedFacts(answer: ServiceReply, parse: string -> Parsed): Option<map<string, string>> {
    match answer
    case ServiceFault => Some(map[])
    case ServiceText(text) =>
      match parse(StripFences(text))
      case Malformed => Some(map[])
      case NotAnObject => None
      case Object(fields) => Some(fields)
  }

  /** The assistant's reply: the stripped generated text, or the apology. */
  function GeneratedReply(answer: ServiceReply): string {
    match answer
    case ServiceFault => Apology
    case ServiceText(text) => Trim(text)
  }

  /** The first-message turn: the greeting is appended to whatever the
      transcript holds, and the flag is saved as false. */
  function FirstMessageTurn(s: Session): TurnResult {
    Finished(s.(history := s.history + [Message(Assistant, Greeting)], complete := false), Greeting, 0)
  }

  /** An ordinary turn. */
  function ConversationTurn(s: Session, message: string, extract: ServiceRequest -> ServiceReply,
                            parse: string -> Parsed, generate: ServiceRequest -> ServiceReply): (r: TurnResult)
    // the turn fails exactly when the extraction text parses to a non-object
    ensures r.Aborted? <==>
      !IsBlank(message) &&
      ExtractedFacts(extract(ServiceRequest(Recent(WithUserMessage(s.history, message), ExtractionWindow), message, s.profile)), parse).None?
    // the transcript only grows: the user's message (if not blank) and then one reply
    ensures r.Finished? ==>
      && s.history <= r.session.history
      && |r.session.history| == |s.history| + (if IsBlank(message) then 1 else 2)
      && (!IsBlank(message) ==> r.session.history[|s.history|] == Message(User, message))
      && r.session.history[|r.session.history| - 1] == Message(Assistant, r.question)
    // the profile never loses a key; progress is measured on the merged profile
    ensures r.Finished? ==>
      && s.profile.Keys <= r.session.profile.Keys
      && |s.profile| <= |r.session.profile|
      && r.progress == Progress(|r.session.profile|) && r.progress <= 100
    // the flag is the old flag or a wrap-up phrase in the reply
    ensures r.Finished? ==>
      && r.session.complete == (s.complete || HitsStopSignal(r.question))
      && r.session.created == s.created
  {
    var history := WithUserMessage(s.history, message);
    var facts :=
      if IsBlank(message) then Some(map[])
      else ExtractedFacts(extract(ServiceRequest(Recent(history, ExtractionWindow), message, s.profile)), parse);
    match facts
    case None => Aborted
    case Some(candidates) =>
      var profile := Merge(s.profile, candidates);
      MergeGrows(s.profile, candidates);
      var reply := GeneratedReply(generate(ServiceRequest(Recent(history, GenerationWindow), message, profile)));
      var complete := s.complete || HitsStopSignal(reply);
      Finished(Session(history + [Message(Assistant, reply)], profile, complete, s.created), reply, Progress(|profile|))
  }

  /** What an ordinary turn saves and says: the profile is the merge of the
      extracted facts (none for a blank message), and the question is the
      stripped generated text, or the apology when generation fails. */
  lemma ConversationTurnMergesAndReplies(s: Session, message: string, extract: ServiceRequest -> ServiceReply,
                                         parse: string -> Parsed, generate: ServiceRequest -> ServiceReply)
    ensures var r := ConversationTurn(s, message, extract, parse, generate);
      r.Finished? ==>
        && r.session.profile == Merge(s.profile, if IsBlank(message) then map[] else
             ExtractedFacts(extract(ServiceRequest(Recent(WithUserMessage(s.history, message), ExtractionWindow), message, s.profile)), parse).value)
        && r.question == GeneratedReply(generate(ServiceRequest(Recent(WithUserMessage(s.history, message), GenerationWindow), message, r.session.profile)))
  {
  }

  /** The turn for a request, given the loaded session. */
  function HandleTurn(s: Session, request: ChatRequest, extract: ServiceRequest -> ServiceReply,
                      parse: string -> Parsed, generate: ServiceRequest -> ServiceReply): TurnResult {
    if request.isFirstMessage then FirstMessageTurn(s)
    else ConversationTurn(s, request.message, extract, parse, generate)
  }

  /** The response for a turn's result. */
  function ResponseFor(sessionId: string, r: TurnResult): ChatResponse {
    match r
    case Aborted => Fallback(sessionId)
    case Finished(session, question, progress) => ChatResponse(question, session.complete, progress, sessionId)
  }

  /** Every finished turn keeps the session's stamp and ends its transcript
      with the question it sends back. */
  lemma FinishedTurnEndsWithQuestion(s: Session, request: ChatRequest, extract: ServiceRequest -> ServiceReply,
                                     parse: string -> Parsed, generate: ServiceRequest -> ServiceReply)
    ensures var r := HandleTurn(s, request, extract, parse, generate);
      r.Finished? ==>
        && r.session.created == s.created
        && |r.session.history| > 0
        && r.session.history[|r.session.history| - 1] == Message(Assistant, r.question)
  {
    if !request.isFirstMessage {
      var r := ConversationTurn(s, request.message, extract, parse, generate);
      assert HandleTurn(s, request, extract, parse, generate) == r;
    }
  }

  /** The first-message turn consults no service: its result is the same
      whatever the services would answer. It appends exactly the greeting,
      keeps the profile, reports progress 0 and saves the flag as false, even
      for a session that was already complete. */
  lemma FirstMessageShortCircuit(s: Session, request: ChatRequest,
                                 extract: ServiceRequest -> ServiceReply, parse: string -> Parsed, generate: ServiceRequest -> ServiceReply,
                                 extract': ServiceRequest -> ServiceReply, parse': string -> Parsed, generate': ServiceRequest -> ServiceReply)
    requires request.isFirstMessage
    ensures HandleTurn(s, request, extract, parse, generate) == HandleTurn(s, request, extract', parse', generate')
    ensures var r := HandleTurn(s, request, extract, parse, generate);
      && r.Finished? && r.question == Greeting && r.progress == 0
      && r.session.history == s.history + [Message(Assistant, Greeting)]
      && r.session.profile == s.profile && !r.session.complete
  {
  }

  /** The apology contains no wrap-up phrase: every phrase holds one of the
      letters d, f, k or v, which the apology lacks in either case. */
  lemma ApologyNeverCompletes()
    ensures !HitsStopSignal(Apology)
  {
    forall j | 0 <= j < |StopSignals| ensures !Contains(Lower(Apology), StopSignals[j]) {
      if j == 0 {
        Signal0RuledOut();
      } else if j == 1 {
        Signal1RuledOut();
      } else if j == 2 {
        Signal2RuledOut();
      } else if j == 3 {
        Signal3RuledOut();
      } else if j == 4 {
        Signal4RuledOut();
      } else if j == 5 {
        Signal5RuledOut();
      } else if j == 6 {
        Signal6RuledOut();
      } else if j == 7 {
        Signal7RuledOut();
      } else if j == 8 {
        Signal8RuledOut();
      } else if j == 9 {
        Signal9RuledOut();
      } else if j == 10 {
        Signal10RuledOut();
      } else if j == 11 {
        Signal11RuledOut();
      } else if j == 12 {
        Signal12RuledOut();
      } else if j == 13 {
        Signal13RuledOut();
      } else {
        Signal14RuledOut();
      }
    }
  }

  // Each wrap-up phrase, ruled out by the letter named in its RuledOut call.
  // One lemma per phrase (and, below, one per letter) keeps the facts about
  // each string literal in a proof obligation of its own: gathered into one
  // lemma they exceed the verifier's resource limit.
  lemma Signal0RuledOut()
    ensures !Contains(Lower(Apology), StopSignals[0])
  {
    RuledOut(0, 6, 'k');
  }

  lemma Signal1RuledOut()
    ensures !Contains(Lower(Apology), StopSignals[1])
  {
    RuledOut(1, 6, 'k');
  }

  lemma Signal2RuledOut()
    ensures !Contains(Lower(Apology), StopSignals[2])
  {
    RuledOut(2, 2, 'f');
  }

  lemma Signal3RuledOut()
    ensures !Contains(Lower(Apology), StopSignals[3])
  {
    RuledOut(3, 2, 'v');
  }

  lemma Signal4RuledOut()
    ensures !Contains(Lower(Apology), StopSignals[4])
  {
    RuledOut(4, 3, 'd');
  }

  lemma Signal5RuledOut()
    ensures !Contains(Lower(Apology), StopSignals[5])
  {
    RuledOut(5, 3, 'd');
  }

  lemma Signal6RuledOut()
    ensures !Contains(Lower(Apology), StopSignals[6])
  {
    RuledOut(6, 4, 'k');
  }

  lemma Signal7RuledOut()
    ensures !Contains(Lower(Apology), StopSignals[7])
  {
    RuledOut(7, 9, 'd');
  }

  lemma Signal8RuledOut()
    ensures !Contains(Lower(Apology), StopSignals[8])
  {
    RuledOut(8, 6, 'k');
  }

  lemma Signal9RuledOut()
    ensures !Contains(Lower(Apology), StopSignals[9])
  {
    RuledOut(9, 3, 'v');
  }

  lemma Signal10RuledOut()
    ensures !Contains(Lower(Apology), StopSignals[10])
  {
    RuledOut(10, 3, 'd');
  }

  lemma Signal11RuledOut()
    ensures !Contains(Lower(Apology), StopSignals[11])
  {
    RuledOut(11, 2, 'v');
  }

  lemma Signal12RuledOut()
    ensures !Contains(Lower(Apology), StopSignals[12])
  {
    RuledOut(12, 3, 'd');
  }

  lemma Signal13RuledOut()
    ensures !Contains(Lower(Apology), StopSignals[13])
  {
    RuledOut(13, 6, 'k');
  }

  lemma Signal14RuledOut()
    ensures !Contains(Lower(Apology), StopSignals[14])
  {
    RuledOut(14, 4, 'v');
  }

  /** Phrase `j` holds at index `i` a letter `c` that the apology lacks. */
  lemma RuledOut(j: nat, i: nat, c: char)
    requires j < |StopSignals| && i < |StopSignals[j]| && StopSignals[j][i] == c
    requires c == 'd' || c == 'f' || c == 'k' || c == 'v'
    ensures !Contains(Lower(Apology), StopSignals[j])
  {
    if c == 'd' {
      ApologyLacksD();
    } else if c == 'f' {
      ApologyLacksF();
    } else if c == 'k' {
      ApologyLacksK();
    } else {
      ApologyLacksV();
    }
    MissingCharRulesOut(Lower(Apology), StopSignals[j], c);
  }

  lemma ApologyLacksD()
    ensures 'd' !in Lower(Apology)
  {
    assert 'd' !in Apology && 'D' !in Apology;
    LowerLacks(Apology, 'd');
  }

  lemma ApologyLacksF()
    ensures 'f' !in Lower(Apology)
  {
    assert 'f' !in Apology && 'F' !in Apology;
    LowerLacks(Apology, 'f');
  }

  lemma ApologyLacksK()
    ensures 'k' !in Lower(Apology)
  {
    assert 'k' !in Apology && 'K' !in Apology;
    LowerLacks(Apology, 'k');
  }

  lemma ApologyLacksV()
    ensures 'v' !in Lower(Apology)
  {
    assert 'v' !in Apology && 'V' !in Apology;
    LowerLacks(Apology, 'v');
  }

  /** When the generation call fails, the apology is sent and, since it holds
      no wrap-up phrase, the completion flag is saved unchanged. */
  lemma GenerationFaultKeepsFlag(s: Session, message: string, extract: ServiceRequest -> ServiceReply,
                                 parse: string -> Parsed, generate: ServiceRequest -> ServiceReply)
    requires forall q :: generate(q) == ServiceFault
    ensures var r := ConversationTurn(s, message, extract, parse, generate);
      r.Finished? ==> r.question == Apology && r.session.complete == s.complete
  {
    ApologyNeverCompletes();
  }

  /** One request of a replayed conversation, with what the services answer
      during that request. */
  datatype Exchange = Exchange(request: ChatRequest, extract: ServiceRequest -> ServiceReply,
                               parse: string -> Parsed, generate: ServiceRequest -> ServiceReply)

  /** The stored session after one request: a failed turn saves nothing. */
  function After(s: Session, e: Exchange): Session {
    match HandleTurn(s, e.request, e.extract, e.parse, e.generate)
    case Aborted => s
    case Finished(t, _, _) => t
  }

  /** The stored session after a series of requests. */
  function Replay(s: Session, exchanges: seq<Exchange>): Session
    decreases |exchanges|
  {
    if exchanges == [] then s else Replay(After(s, exchanges[0]), exchanges[1..])
  }

  /** Over any series of ordinary requests, whatever the services answer, the
      transcript only grows at its end, no profile key is lost, the profile
      never shrinks and a completed session stays complete. */
  lemma {:induction false} ReplayMonotone(s: Session, exchanges: seq<Exchange>)
    requires forall i :: 0 <= i < |exchanges| ==> !exchanges[i].request.isFirstMessage
    ensures s.history <= Replay(s, exchanges).history
    ensures s.profile.Keys <= Replay(s, exchanges).profile.Keys
    ensures |s.profile| <= |Replay(s, exchanges).profile|
    ensures s.complete ==> Replay(s, exchanges).complete
    ensures Replay(s, exchanges).created == s.created
    decreases |exchanges|
  {
    if exchanges != [] {
      var t := After(s, exchanges[0]);
      assert forall i :: 0 <= i < |exchanges[1..]| ==> exchanges[1..][i] == exchanges[i + 1];
      ReplayMonotone(t, exchanges[1..]);
    }
  }

  /** A first real answer on a fresh session, when extraction yields clean
      facts: they become the profile exactly, progress is measured on them,
      and the transcript opens with the user's message. */
  lemma FreshSessionTakesCleanFacts(created: nat, message: string, facts: map<string, string>,
                                    extract: ServiceRequest -> ServiceReply, parse: string -> Parsed,
                                    generate: ServiceRequest -> ServiceReply)
    requires !IsBlank(message)
    requires forall q :: extract(q) != ServiceFault
    requires forall t :: parse(t) == Object(facts)
    requires forall k :: k in facts ==> !IsSentinel(facts[k]) && IsTrimmed(facts[k])
    ensures var r := ConversationTurn(NewSession(created), message, extract, parse, generate);
      && r.Finished? && r.session.profile == facts && r.progress == Progress(|facts|)
      && r.session.history[0] == Message(User, message)
  {
    var s := NewSession(created);
    var q := ServiceRequest(Recent(WithUserMessage(s.history, message), ExtractionWindow), message, s.profile);
    assert ExtractedFacts(extract(q), parse) == Some(facts) by {
      assert parse(StripFences(extract(q).text)) == Object(facts);
    }
    MergeIntoEmpty(facts);
  }

  /** A generated reply that contains a wrap-up phrase, in any mix of cases,
      is sent as it is and marks the session complete. */
  lemma WrapUpReplyCompletes(s: Session, message: string, extract: ServiceRequest -> ServiceReply,
                             parse: string -> Parsed, generate: ServiceRequest -> ServiceReply,
                             pre: string, x: string, post: string, j: nat)
    requires j < |StopSignals| && Lower(x) == StopSignals[j]
    requires IsTrimmed(pre + x + post)
    requires forall q :: generate(q) == ServiceText(pre + x + post)
    ensures var r := ConversationTurn(s, message, extract, parse, generate);
      r.Finished? ==> r.question == pre + x + post && r.session.complete
  {
    var reply := pre + x + post;
    TrimOfTrimmed(reply);
    assert GeneratedReply(ServiceText(reply)) == reply;
    SignalInAnyCaseCompletes(pre, x, post, j);
    assert HitsStopSignal(reply);
  }
}
