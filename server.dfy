/**
 * The quiz server as it runs: the five module-level variables of the
 * process as fields, and one method per socket handler that updates them in
 * the order the handler does and returns the events it emits. Each method is
 * proved to do what the corresponding function of `Round` specifies.
 */
module Server {
  import opened Wrappers
  import Text
  import Ledger
  import opened Round

  class Coordinator {
    var answer: string                   // respuestaCorrectaActual
    var active: bool                     // rondaActiva
    var question: string                 // preguntaActual
    var users: map<SessionId, string>    // usuariosConectados
    var stats: Ledger.Table              // estadisticas

    ghost function State(): GameState
      reads this
    {
      GameState(answer, active, question, users, stats)
    }

    ghost predicate Valid()
      reads this
    {
      Round.Valid(State())
    }

    /** Process start. */
    constructor ()
      ensures Valid() && State() == Initial
    {
      answer := "";
      active := false;
      question := "";
      users := map[];
      stats := Ledger.Empty;
    }

    /** `usuariosConectados.get(socket.id)`, with `undefined` read as "". */
    function NameOf(sid: SessionId): (name: string)
      reads this
      ensures name != "" <==> Registered(State(), sid)
    {
      if sid in users then users[sid] else ""
    }

    /** A new socket is sent the current ledger. */
    method Connect(sid: SessionId) returns (out: seq<Emit>)
      ensures out == OnConnect(State(), sid)
    {
      out := [Unicast(sid, StatsUpdated(Ledger.Snapshot(stats)))];
    }

    method Register(sid: SessionId, name: string) returns (out: seq<Emit>)
      requires Valid()
      modifies this
      ensures Valid()
      ensures State() == OnRegister(old(State()), sid, name).state
      ensures out == OnRegister(old(State()), sid, name).events
    {
      users := users[sid := name];
      if name !in stats.points {
        stats := Ledger.Set(stats, name, 0);
      }
      out := [Broadcast(UserJoined(name, |users|))];
      if question != "" && active {
        out := out + [Unicast(sid, QuestionPublished(question, None))];
      }
    }

    method Publish(sid: SessionId, q: string, a: string) returns (out: seq<Emit>)
      requires Valid()
      modifies this
      ensures Valid()
      ensures State() == OnPublish(old(State()), sid, q, a).state
      ensures out == OnPublish(old(State()), sid, q, a).events
    {
      var moderator := if sid in users then Some(users[sid]) else None;
      answer := Text.Normalize(a);
      question := q;
      active := true;
      out := [Broadcast(QuestionPublished(q, moderator))];
    }

    method Submit(sid: SessionId, text: string) returns (out: seq<Emit>)
      requires Valid()
      modifies this
      ensures Valid()
      ensures State() == OnSubmit(old(State()), sid, text).state
      ensures out == OnSubmit(old(State()), sid, text).events
    {
      var name := NameOf(sid);
      if name == "" {
        out := [Unicast(sid, UnregisteredUser)];
        return;
      }
      if !active {
        out := [Unicast(sid, LateAnswer)];
        return;
      }
      if answer == "" {
        out := [Unicast(sid, NoQuestion)];
        return;
      }
      var normalized := Text.Normalize(text);
      if normalized == answer {
        out := AwardRound(sid, text);
      } else {
        out := [Unicast(sid, WrongAnswer(text))];
      }
    }

    /** The winning branch of 'respuesta:enviada': close the round, score a point, announce. */
    method AwardRound(sid: SessionId, text: string) returns (out: seq<Emit>)
      requires Valid() && Matches(State(), sid, text)
      modifies this
      ensures Valid()
      ensures State() == OnSubmit(old(State()), sid, text).state
      ensures out == OnSubmit(old(State()), sid, text).events
    {
      ghost var before := State();
      var name := users[sid];
      active := false;
      var current := Ledger.PointsOf(stats, name);
      stats := Ledger.Set(stats, name, current + 1);
      out := [Broadcast(RoundWon(name, answer, Ledger.PointsOf(stats, name)))];
      out := out + [Broadcast(StatsUpdated(Ledger.Snapshot(stats)))];
      answer := "";
      question := "";
      assert OnSubmit(before, sid, text).state
          == before.(active := false, stats := stats, answer := "", question := "");
    }

    method Disconnect(sid: SessionId) returns (out: seq<Emit>)
      requires Valid()
      modifies this
      ensures Valid()
      ensures State() == OnDisconnect(old(State()), sid).state
      ensures out == OnDisconnect(old(State()), sid).events
    {
      var name := NameOf(sid);
      out := [];
      if name != "" {
        users := users - {sid};
        out := [Broadcast(UserLeft(name, |users|))];
      }
    }

    method Reset(sid: SessionId) returns (out: seq<Emit>)
      requires Valid()
      modifies this
      ensures Valid()
      ensures State() == OnReset(old(State()), sid).state
      ensures out == OnReset(old(State()), sid).events
    {
      var name := NameOf(sid);
      out := [];
      if name != "" && Text.Contains(Text.Lower(name), "docente") {
        answer := "";
        question := "";
        active := false;
        stats := Ledger.Empty;
        out := [Broadcast(GameReset)];
      }
    }

    /** The read-only `/health` route. */
    method HealthCheck() returns (report: HealthReport)
      ensures report == Health(State())
      ensures report.roundActive == active && report.hasQuestion == (question != "")
    {
      report := HealthReport(|users|, active, question != "");
    }
  }
}
