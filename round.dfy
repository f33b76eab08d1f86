/**
 * The round coordinator of the quiz server, as a pure state machine: one
 * function per socket handler, each taking the five globals of the server and
 * returning their new values together with the events the handler emits, in
 * emission order. Node runs one handler to completion before the next, so a
 * run of the server is a fold of these functions over the incoming requests.
 */
module Round {
  import opened Wrappers
  import Text
  import Ledger

  /** The transport's socket id. */
  type SessionId = string

  /** What the server emits; each constructor is one socket.io event. */
  datatype Payload =
    | StatsUpdated(entries: seq<Ledger.Entry>)                  // 'estadisticas:actualizadas'
    | UserJoined(name: string, connected: nat)                  // 'usuario:nuevo'
    | QuestionPublished(question: string, moderator: Option<string>)  // 'pregunta:publicada'
    | RoundWon(winner: string, answer: string, newScore: nat)   // 'ronda:terminada'
    | UserLeft(name: string, connected: nat)                    // 'usuario:desconectado'
    | GameReset                                                 // 'juego:reiniciado'
    | UnregisteredUser                                          // 'error:usuario'
    | LateAnswer                                                // 'respuesta:tardia'
    | NoQuestion                                                // 'error:sin_pregunta'
    | WrongAnswer(submitted: string)                            // 'respuesta:incorrecta'

  /** `io.emit` reaches every connected socket, `socket.emit` only the requester. */
  datatype Emit = Broadcast(payload: Payload) | Unicast(to: SessionId, payload: Payload)

  /**
   * The globals `respuestaCorrectaActual`, `rondaActiva`, `preguntaActual`,
   * `usuariosConectados` and `estadisticas`.
   */
  datatype GameState = GameState(
    answer: string,
    active: bool,
    question: string,
    users: map<SessionId, string>,
    stats: Ledger.Table)

  datatype Outcome = Outcome(state: GameState, events: seq<Emit>)

  /** The state at process start. */
  const Initial := GameState("", false, "", map[], Ledger.Empty)

  /**
   * The invariant the handlers keep: the ledger is well formed, and a closed
   * round holds neither a question nor an answer.
   */
  predicate Valid(s: GameState) {
    Ledger.Valid(s.stats) && ClosedIsClear(s)
  }

  /**
   * Every handler that closes the round also clears the question and the
   * answer, so no stale answer survives a closed round. (An open round may
   * still hold a blank answer: publish checks nothing.)
   */
  predicate ClosedIsClear(s: GameState) {
    !s.active ==> s.answer == "" && s.question == ""
  }

  /**
   * `usuariosConectados.get(id)` is truthy: the session is mapped to a
   * non-empty name. A session registered under "" counts as unregistered.
   */
  predicate Registered(s: GameState, sid: SessionId) {
    sid in s.users && s.users[sid] != ""
  }

  /** The reset check: the lower-cased name contains "docente". */
  predicate MayReset(name: string) {
    Text.Contains(Text.Lower(name), "docente")
  }

  /** On connection: the requester gets the current ledger. */
  function OnConnect(s: GameState, sid: SessionId): seq<Emit> {
    [Unicast(sid, StatsUpdated(Ledger.Snapshot(s.stats)))]
  }

  /** 'usuario:conectado': bind the session to the name and seed a zero score for a new name. */
  function OnRegister(s: GameState, sid: SessionId, name: string): Outcome {
    var users := s.users[sid := name];
    var stats := if name in s.stats.points then s.stats else Ledger.Set(s.stats, name, 0);
    var joined := [Broadcast(UserJoined(name, |users|))];
    var replay := if s.question != "" && s.active then [Unicast(sid, QuestionPublished(s.question, None))] else [];
    Outcome(s.(users := users, stats := stats), joined + replay)
  }

  /** 'pregunta:nueva': store the normalised answer and open the round; no check of any kind. */
  function OnPublish(s: GameState, sid: SessionId, question: string, answer: string): Outcome {
    var moderator := if sid in s.users then Some(s.users[sid]) else None;
    Outcome(s.(answer := Text.Normalize(answer), question := question, active := true),
            [Broadcast(QuestionPublished(question, moderator))])
  }

  /** 'respuesta:enviada': the arbiter. */
  function OnSubmit(s: GameState, sid: SessionId, text: string): Outcome {
    if !Registered(s, sid) then Outcome(s, [Unicast(sid, UnregisteredUser)])
    else if !s.active then Outcome(s, [Unicast(sid, LateAnswer)])
    else if s.answer == "" then Outcome(s, [Unicast(sid, NoQuestion)])
    else if Text.Normalize(text) == s.answer then
      var name := s.users[sid];
      var stats := Ledger.Set(s.stats, name, Ledger.PointsOf(s.stats, name) + 1);
      Outcome(s.(active := false, stats := stats, answer := "", question := ""),
              [Broadcast(RoundWon(name, s.answer, Ledger.PointsOf(stats, name))),
               Broadcast(StatsUpdated(Ledger.Snapshot(stats)))])
    else
      Outcome(s, [Unicast(sid, WrongAnswer(text))])
  }

  /** 'disconnect': forget a registered session and tell everybody. */
  function OnDisconnect(s: GameState, sid: SessionId): Outcome {
    if Registered(s, sid) then
      var users := s.users - {sid};
      Outcome(s.(users := users), [Broadcast(UserLeft(s.users[sid], |users|))])
    else
      Outcome(s, [])
  }

  /** 'juego:reiniciar': only a registered name containing "docente" resets; anything else is ignored. */
  function OnReset(s: GameState, sid: SessionId): Outcome {
    if Registered(s, sid) && MayReset(s.users[sid]) then
      Outcome(s.(answer := "", question := "", active := false, stats := Ledger.Empty), [Broadcast(GameReset)])
    else
      Outcome(s, [])
  }

  /** What `/health` reports besides its status text and timestamp. */
  datatype HealthReport = HealthReport(connected: nat, roundActive: bool, hasQuestion: bool)

  function Health(s: GameState): HealthReport {
    HealthReport(|s.users|, s.active, s.question != "")
  }

  // ----- Runs of the server -----

  /** One incoming socket event, with the socket it came from. */
  datatype Request =
    | Connect(sid: SessionId)
    | Register(sid: SessionId, name: string)
    | Publish(sid: SessionId, question: string, answer: string)
    | Submit(sid: SessionId, text: string)
    | Disconnect(sid: SessionId)
    | Reset(sid: SessionId)

  function Step(s: GameState, r: Request): Outcome {
    match r
    case Connect(sid) => Outcome(s, OnConnect(s, sid))
    case Register(sid, name) => OnRegister(s, sid, name)
    case Publish(sid, q, a) => OnPublish(s, sid, q, a)
    case Submit(sid, text) => OnSubmit(s, sid, text)
    case Disconnect(sid) => OnDisconnect(s, sid)
    case Reset(sid) => OnReset(s, sid)
  }

  /** The requests handled one after another; the events of all of them in order. */
  function Run(s: GameState, rs: seq<Request>): Outcome
    decreases |rs|
  {
    if rs == [] then Outcome(s, [])
    else
      var first := Step(s, rs[0]);
      var rest := Run(first.state, rs[1..]);
      Outcome(rest.state, first.events + rest.events)
  }

  /** The names announced as winners by 'ronda:terminada' events, in order. */
  function Winners(events: seq<Emit>): seq<string> {
    if events == [] then []
    else if events[0].payload.RoundWon? then [events[0].payload.winner] + Winners(events[1..])
    else Winners(events[1..])
  }

  lemma {:induction false} WinnersConcat(a: seq<Emit>, b: seq<Emit>)
    ensures Winners(a + b) == Winners(a) + Winners(b)
  {
    if a == [] {
      assert a + b == b;
    } else {
      var ab := a + b;
      assert ab[0] == a[0];
      assert ab[1..] == a[1..] + b;
      WinnersConcat(a[1..], b);
      if a[0].payload.RoundWon? {
        var w := [a[0].payload.winner];
        assert Winners(ab) == w + Winners(ab[1..]);
        assert Winners(a) == w + Winners(a[1..]);
        assert w + (Winners(a[1..]) + Winners(b)) == (w + Winners(a[1..])) + Winners(b);
      } else {
        assert Winners(ab) == Winners(ab[1..]);
      }
    }
  }

  // ----- The arbiter -----

  /**
   * A submission is checked for a registered session, then for an open round,
   * then for a stored answer; the first check that fails answers the
   * requester privately and changes nothing.
   */
  lemma SubmitRejections(s: GameState, sid: SessionId, text: string)
    ensures !Registered(s, sid) ==> OnSubmit(s, sid, text) == Outcome(s, [Unicast(sid, UnregisteredUser)])
    ensures Registered(s, sid) && !s.active ==> OnSubmit(s, sid, text) == Outcome(s, [Unicast(sid, LateAnswer)])
    ensures Registered(s, sid) && s.active && s.answer == "" ==>
              OnSubmit(s, sid, text) == Outcome(s, [Unicast(sid, NoQuestion)])
  {
  }

  /** The condition under which a submission wins the round. */
  predicate Matches(s: GameState, sid: SessionId, text: string) {
    Registered(s, sid) && s.active && s.answer != "" && Text.Normalize(text) == s.answer
  }

  /**
   * A submission announces a winner exactly when it matches, and then the
   * winner announced is the submitter's name.
   */
  lemma MatchRule(s: GameState, sid: SessionId, text: string)
    ensures Winners(OnSubmit(s, sid, text).events) == if Matches(s, sid, text) then [s.users[sid]] else []
  {
    var o := OnSubmit(s, sid, text);
    if Matches(s, sid, text) {
      assert Winners(o.events[1..]) == [];
    }
  }

  /**
   * A winning submission closes the round, clears question and answer, adds
   * one point to the winner (from 0 when it had no entry) and leaves every
   * other score and the sessions alone; it broadcasts 'ronda:terminada' with
   * the stored answer and the new score, then the updated ledger.
   */
  lemma WinChangesOneScore(s: GameState, sid: SessionId, text: string)
    requires Matches(s, sid, text)
    ensures var o := OnSubmit(s, sid, text); var name := s.users[sid];
      && !o.state.active && o.state.answer == "" && o.state.question == ""
      && o.state.users == s.users
      && Ledger.Get(o.state.stats, name) == Some(Ledger.PointsOf(s.stats, name) + 1)
      && (forall k :: k != name ==> Ledger.Get(o.state.stats, k) == Ledger.Get(s.stats, k))
      && o.state.stats.order == (if name in s.stats.points then s.stats.order else s.stats.order + [name])
      && o.events == [Broadcast(RoundWon(name, s.answer, Ledger.PointsOf(s.stats, name) + 1)),
                      Broadcast(StatsUpdated(Ledger.Snapshot(o.state.stats)))]
  {
  }

  /** A wrong answer changes nothing and only echoes the raw text to the submitter. */
  lemma IncorrectChangesNothing(s: GameState, sid: SessionId, text: string)
    requires Registered(s, sid) && s.active && s.answer != ""
    requires Text.Normalize(text) != s.answer
    ensures OnSubmit(s, sid, text) == Outcome(s, [Unicast(sid, WrongAnswer(text))])
  {
  }

  /** Only the normalised form of a submission decides what happens to the game. */
  lemma SubmitSeesNormalForm(s: GameState, sid: SessionId, t1: string, t2: string)
    requires Text.Normalize(t1) == Text.Normalize(t2)
    ensures OnSubmit(s, sid, t1).state == OnSubmit(s, sid, t2).state
    ensures Winners(OnSubmit(s, sid, t1).events) == Winners(OnSubmit(s, sid, t2).events)
  {
    MatchRule(s, sid, t1);
    MatchRule(s, sid, t2);
  }

  /**
   * After a publish whose answer is not blank, a registered player wins exactly
   * with a text that normalises like the published answer; in particular a
   * change of case or surrounding white space still wins.
   */
  lemma PublishThenSubmit(s: GameState, moderator: SessionId, q: string, a: string, sid: SessionId, text: string)
    requires Text.Normalize(a) != ""
    requires Registered(s, sid)
    ensures var t := OnPublish(s, moderator, q, a).state;
      Matches(t, sid, text) <==> Text.Normalize(text) == Text.Normalize(a)
  {
  }

  /**
   * The published answer typed in any letter case and with any white space
   * around it wins: " PARIS " against "paris" is an instance.
   */
  lemma PaddedVariantWins(s: GameState, moderator: SessionId, q: string, a: string, sid: SessionId,
                          p: string, t: string, p': string)
    requires Text.Normalize(a) != "" && Registered(s, sid)
    requires Text.AllSpace(p) && Text.AllSpace(p') && Text.Lower(t) == Text.Lower(a)
    ensures Matches(OnPublish(s, moderator, q, a).state, sid, p + t + p')
  {
    Text.NormalizeIgnoresCaseAndPadding(p, t, a, p');
  }

  /**
   * An answer that normalises to "" still opens the round, and then every
   * registered submission is refused with 'error:sin_pregunta'.
   */
  lemma BlankAnswerRoundCannotBeWon(s: GameState, moderator: SessionId, q: string, a: string, sid: SessionId, text: string)
    requires Text.Normalize(a) == "" && Registered(s, sid)
    ensures var t := OnPublish(s, moderator, q, a).state;
      t.active && OnSubmit(t, sid, text) == Outcome(t, [Unicast(sid, NoQuestion)])
  {
  }

  // ----- Publishing, registration, disconnection, reset -----

  /**
   * Publish opens the round, replaces any previous question and answer, and
   * does so for any sender: the session is read only to name the moderator.
   * Its one broadcast carries the question, never the answer.
   */
  lemma PublishOverwrites(s: GameState, sid: SessionId, other: SessionId, q: string, a: string)
    ensures var o := OnPublish(s, sid, q, a);
      && o.state.active && o.state.question == q && o.state.answer == Text.Normalize(a)
      && o.state.users == s.users && o.state.stats == s.stats
      && o.state == OnPublish(s, other, q, a).state
      && |o.events| == 1 && o.events[0].Broadcast? && o.events[0].payload.QuestionPublished?
      && o.events[0].payload.question == q
  {
  }

  /**
   * Registration binds the session to the name, gives a new name 0 points and
   * never changes an existing score; it broadcasts the new session count and
   * replays the open question, without answer or moderator, only to the
   * newcomer and only when a question is stored and the round is open.
   */
  lemma RegisterKeepsScores(s: GameState, sid: SessionId, name: string)
    ensures var o := OnRegister(s, sid, name);
      && o.state.users == s.users[sid := name]
      && o.state.answer == s.answer && o.state.active == s.active && o.state.question == s.question
      && Ledger.Get(o.state.stats, name) == Some(Ledger.PointsOf(s.stats, name))
      && (forall k :: k != name ==> Ledger.Get(o.state.stats, k) == Ledger.Get(s.stats, k))
      && o.state.stats.order == (if name in s.stats.points then s.stats.order else s.stats.order + [name])
      && o.events[0] == Broadcast(UserJoined(name, |s.users[sid := name]|))
      && o.events[1..] == (if s.question != "" && s.active
                           then [Unicast(sid, QuestionPublished(s.question, None))] else [])
  {
  }

  /** Disconnecting removes only that session, and only when it was registered; round and ledger stay. */
  lemma DisconnectForgetsSession(s: GameState, sid: SessionId)
    ensures var o := OnDisconnect(s, sid);
      && o.state.users == (if Registered(s, sid) then s.users - {sid} else s.users)
      && o.state.answer == s.answer && o.state.active == s.active && o.state.question == s.question
      && o.state.stats == s.stats
      && o.events == (if Registered(s, sid) then [Broadcast(UserLeft(s.users[sid], |s.users - {sid}|))] else [])
  {
  }

  /**
   * A reset by a registered name containing "docente" (in any case) closes the
   * round, clears question, answer and ledger and keeps the sessions; any other
   * reset changes nothing and emits nothing.
   */
  lemma ResetAuthorisation(s: GameState, sid: SessionId)
    ensures var o := OnReset(s, sid);
      if Registered(s, sid) && Text.Contains(Text.Lower(s.users[sid]), "docente") then
        && o.state == GameState("", false, "", s.users, Ledger.Empty)
        && o.events == [Broadcast(GameReset)]
      else
        o == Outcome(s, [])
  {
  }

  /** A name counts as a moderator for reset when "docente" occurs in it, anywhere and in any case. */
  lemma MayResetIff(name: string)
    ensures MayReset(name) <==> exists i :: Text.OccursAt(Text.Lower(name), "docente", i)
  {
    Text.ContainsIff(Text.Lower(name), "docente");
  }

  // ----- Properties of every step -----

  /** The process starts in a state that satisfies the invariant. */
  lemma InitialValid()
    ensures Valid(Initial)
  {
  }

  /**
   * Every handler keeps the ledger a map with one entry per name, and leaves a
   * closed round without question and answer.
   */
  lemma StepPreservesValid(s: GameState, r: Request)
    requires Valid(s)
    ensures Valid(Step(s, r).state)
  {
  }

  /** The answer leaves the server only in a 'ronda:terminada', and only from a winning submission. */
  lemma AnswerHiddenUntilWon(s: GameState, r: Request)
    ensures forall e :: e in Step(s, r).events && e.payload.RoundWon? ==>
              r.Submit? && Matches(s, r.sid, r.text) && e.payload.answer == s.answer
  {
    var events := Step(s, r).events;
    match r
    case Submit(sid, text) =>
      assert events == OnSubmit(s, sid, text).events;
      if Matches(s, sid, text) {
        assert events[1].payload.StatsUpdated?;
      }
    case Connect(sid) =>
      assert events == OnConnect(s, sid);
    case Register(sid, name) =>
      assert events == OnRegister(s, sid, name).events;
    case Publish(sid, q, a) =>
      assert events == OnPublish(s, sid, q, a).events;
    case Disconnect(sid) =>
      assert events == OnDisconnect(s, sid).events;
    case Reset(sid) =>
      assert events == OnReset(s, sid).events;
  }

  /** No step but an accepted reset takes points away or drops a name from the ledger. */
  lemma StepKeepsScores(s: GameState, r: Request)
    ensures var t := Step(s, r).state;
      Ledger.Dominates(s.stats, t.stats) || (r.Reset? && t.stats == Ledger.Empty)
  {
  }

  /** Facts about one step that is not a publish, used for runs. */
  lemma StepWithoutPublish(s: GameState, r: Request)
    requires !r.Publish?
    ensures var o := Step(s, r);
      && |Winners(o.events)| <= (if s.active then 1 else 0)
      && (Winners(o.events) != [] ==> !o.state.active)
      && (!s.active ==> !o.state.active)
  {
    match r
    case Submit(sid, text) => MatchRule(s, sid, text);
    case Connect(sid) =>
    case Register(sid, name) =>
      var o := OnRegister(s, sid, name);
      assert o.events[0].payload.UserJoined?;
      assert Winners(o.events[1..]) == [];
    case Disconnect(sid) =>
    case Reset(sid) =>
  }

  // ----- Properties of runs -----

  /**
   * Without a publish in between, at most one submission wins: none when the
   * round starts closed, and a closed round stays closed.
   */
  lemma {:induction false} AtMostOneWinner(s: GameState, rs: seq<Request>)
    requires forall i :: 0 <= i < |rs| ==> !rs[i].Publish?
    ensures |Winners(Run(s, rs).events)| <= (if s.active then 1 else 0)
    ensures !s.active ==> !Run(s, rs).state.active
    decreases |rs|
  {
    if rs != [] {
      var first := Step(s, rs[0]);
      StepWithoutPublish(s, rs[0]);
      AtMostOneWinner(first.state, rs[1..]);
      WinnersConcat(first.events, Run(first.state, rs[1..]).events);
    }
  }

  lemma DominatesTransitive(a: Ledger.Table, b: Ledger.Table, c: Ledger.Table)
    requires Ledger.Dominates(a, b) && Ledger.Dominates(b, c)
    ensures Ledger.Dominates(a, c)
  {
  }

  /** Without a reset, no score ever goes down and no name leaves the ledger. */
  lemma {:induction false} ScoresNeverDecrease(s: GameState, rs: seq<Request>)
    requires forall i :: 0 <= i < |rs| ==> !rs[i].Reset?
    ensures Ledger.Dominates(s.stats, Run(s, rs).state.stats)
    decreases |rs|
  {
    if rs != [] {
      var first := Step(s, rs[0]);
      StepKeepsScores(s, rs[0]);
      ScoresNeverDecrease(first.state, rs[1..]);
      DominatesTransitive(s.stats, first.state.stats, Run(s, rs).state.stats);
    }
  }

  /** Every run keeps the ledger well formed. */
  lemma {:induction false} RunPreservesValid(s: GameState, rs: seq<Request>)
    requires Valid(s)
    ensures Valid(Run(s, rs).state)
    decreases |rs|
  {
    if rs != [] {
      StepPreservesValid(s, rs[0]);
      RunPreservesValid(Step(s, rs[0]).state, rs[1..]);
    }
  }
}
