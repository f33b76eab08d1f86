/**
 * The browser client's own state: the globals `nombreUsuario`, `esDocente`,
 * `preguntaActiva` and `tiempoInicio`, and the `disabled` flags and value of
 * the answer box and its send button, which the handlers below assign step by
 * step. Everything else the page does is drawing.
 */
module Client {
  import opened Wrappers
  import Text
  import opened ClientLogic

  class Page {
    var userName: string        // nombreUsuario
    var isModerator: bool       // esDocente
    var questionActive: bool    // preguntaActiva
    var startTime: Option<int>  // tiempoInicio
    var answerDisabled: bool    // respuestaUsuario.disabled
    var sendDisabled: bool      // btnEnviarRespuesta.disabled
    var answerValue: string     // respuestaUsuario.value, written by the user's typing

    /** Page load; the initial `disabled` flags come from the HTML, which is not part of this model. */
    constructor (inputsDisabled: bool)
      ensures userName == "" && !isModerator && !questionActive && startTime == None
      ensures answerDisabled == inputsDisabled && sendDisabled == inputsDisabled && answerValue == ""
    {
      userName := "";
      isModerator := false;
      questionActive := false;
      startTime := None;
      answerDisabled := inputsDisabled;
      sendDisabled := inputsDisabled;
      answerValue := "";
    }

    /** `registrarUsuario`: on success stores the trimmed name, sets the moderator flag and emits 'usuario:conectado'. */
    method Register(input: string) returns (sent: Option<string>)
      modifies this`userName, this`isModerator
      ensures ValidateName(input).Err? ==> sent == None && unchanged(this)
      ensures ValidateName(input).Ok? ==>
                && sent == Some(Text.Trim(input)) && userName == Text.Trim(input)
                && isModerator == IsModeratorName(Text.Trim(input))
    {
      var checked := ValidateName(input);
      if checked.Err? {
        return None;
      }
      userName := checked.value;
      isModerator := IsModeratorName(checked.value);
      sent := Some(userName);
    }

    /**
     * `enviarRespuesta`: an empty box or no active question is refused and
     * changes nothing; otherwise both controls are disabled and the trimmed
     * answer is emitted as 'respuesta:enviada'.
     */
    method SendAnswer() returns (sent: Result<string, SendError>)
      modifies this`answerDisabled, this`sendDisabled
      ensures sent == CheckAnswer(answerValue, questionActive)
      ensures sent.Err? ==> unchanged(this)
      ensures sent.Ok? ==> answerDisabled && sendDisabled
    {
      sent := CheckAnswer(answerValue, questionActive);
      if sent.Ok? {
        sendDisabled := true;
        answerDisabled := true;
      }
    }

    /** Enter in the answer box sends only while the send button is enabled. */
    method PressEnter() returns (sent: Option<Result<string, SendError>>)
      modifies this`answerDisabled, this`sendDisabled
      ensures old(sendDisabled) ==> sent == None && unchanged(this)
      ensures !old(sendDisabled) ==> sent == Some(CheckAnswer(answerValue, questionActive))
      ensures !old(sendDisabled) && sent.value.Ok? ==> answerDisabled && sendDisabled
      ensures !old(sendDisabled) && sent.value.Err? ==> unchanged(this)
    {
      if sendDisabled {
        return None;
      }
      var r := SendAnswer();
      sent := Some(r);
    }

    /** 'pregunta:publicada': a question is active from `timestamp`, and players may answer again. */
    method OnQuestionPublished(timestamp: int)
      modifies this`questionActive, this`startTime, this`answerDisabled, this`sendDisabled
      ensures questionActive && startTime == Some(timestamp)
      ensures !isModerator ==> !answerDisabled && !sendDisabled
      ensures isModerator ==> answerDisabled == old(answerDisabled) && sendDisabled == old(sendDisabled)
    {
      questionActive := true;
      startTime := Some(timestamp);
      if !isModerator {
        answerDisabled := false;
        sendDisabled := false;
      }
    }

    /** 'respuesta:incorrecta': re-enable both controls and empty the box for another try. */
    method OnAnswerIncorrect()
      modifies this`answerDisabled, this`sendDisabled, this`answerValue
      ensures !answerDisabled && !sendDisabled && answerValue == ""
    {
      answerDisabled := false;
      sendDisabled := false;
      answerValue := "";
    }

    /** `actualizarTimer`: the text of the question clock at time `now`. */
    function Timer(now: int): (r: Option<string>)
      reads this
      ensures startTime.Some? && startTime.value != 0 ==> r == Some(FormatClock(now - startTime.value))
      ensures r.None? <==> startTime.None? || startTime.value == 0
    {
      TimerText(startTime, now)
    }
  }

  /**
   * A player who has sent an answer cannot send again with Enter until the
   * server says it was wrong; after 'respuesta:incorrecta' the box is empty, so
   * the next send is refused until something is typed.
   */
  method OneSendPerVerdict(p: Page) returns (first: Result<string, SendError>, again: Option<Result<string, SendError>>,
                                                afterVerdict: Result<string, SendError>)
    requires p.questionActive && Text.Trim(p.answerValue) != ""
    modifies p
    ensures first == Ok(Text.Trim(old(p.answerValue)))
    ensures again == None
    ensures afterVerdict == Err(EmptyAnswer)
    ensures p.answerValue == "" && !p.answerDisabled && !p.sendDisabled && p.questionActive
  {
    first := p.SendAnswer();
    again := p.PressEnter();
    p.OnAnswerIncorrect();
    afterVerdict := p.SendAnswer();
    assert afterVerdict == Err(EmptyAnswer) by {
      assert Text.Trim("") == "";
    }
  }
}
