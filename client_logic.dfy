/**
 * The decisions the browser client takes before it talks to the server, and
 * the leaderboard and clock it derives from what the server sends: the form
 * checks of `registrarUsuario`, `publicarPregunta` and `enviarRespuesta`, the
 * moderator flag, the ranking of `actualizarEstadisticas` and the `m:ss`
 * text of `actualizarTimer`.
 */
module ClientLogic {
  import opened Wrappers
  import Text
  import Ledger

  const MaxNameLength := 20
  const MaxQuestionLength := 200
  const MaxAnswerLength := 50

  // ----- Registration -----

  datatype NameError = EmptyName | NameTooLong

  /**
   * `registrarUsuario`: the trimmed name, refused when empty or longer than 20
   * UTF-16 code units (`length`).
   */
  function ValidateName(input: string): (r: Result<string, NameError>)
    ensures r.Ok? <==> Text.Trim(input) != "" && Text.Utf16Length(Text.Trim(input)) <= MaxNameLength
    ensures r.Ok? ==> r.value == Text.Trim(input)
    ensures r == Err(EmptyName) <==> Text.Trim(input) == ""
  {
    var name := Text.Trim(input);
    if name == "" then Err(EmptyName)
    else if Text.Utf16Length(name) > MaxNameLength then Err(NameTooLong)
    else Ok(name)
  }

  /** A name the form accepted is accepted again, unchanged, if typed back in. */
  lemma AcceptedNameIsStable(input: string)
    requires ValidateName(input).Ok?
    ensures ValidateName(ValidateName(input).value) == ValidateName(input)
  {
    Text.TrimIdempotent(input);
  }

  /**
   * The bound counts UTF-16 code units, not characters: eleven emoji are 22
   * units and the name is refused as too long.
   */
  lemma EmojiNameTooLong()
    ensures ValidateName(seq(11, _ => '\U{1F600}')) == Err(NameTooLong)
  {
    var name: string := seq(11, _ => '\U{1F600}');
    Text.TrimIs(name, 0, |name|);
    assert name[0..|name|] == name;
    Text.Utf16LengthBounds(name);
  }

  /** `esDocente`: the client shows the moderator panel only for exactly "docente", in any case. */
  predicate IsModeratorName(name: string) {
    Text.Lower(name) == "docente"
  }

  /** Whoever the client treats as moderator also passes the server's reset check, which only asks for "docente" somewhere in the name. */
  lemma ModeratorMayReset(name: string)
    requires IsModeratorName(name)
    ensures Text.Contains(Text.Lower(name), "docente")
  {
    var n := Text.Lower(name);
    assert n[..|"docente"|] == "docente";
  }

  /** The converse fails: the server lets "Docente2" reset although its client shows no moderator panel. */
  lemma ServerCheckIsWider()
    ensures Text.Contains(Text.Lower("Docente2"), "docente")
    ensures !IsModeratorName("Docente2")
  {
    var n := Text.Lower("Docente2");
    assert n == "docente2";
    assert n[..7] == "docente";
  }

  // ----- Publishing a question -----

  datatype QuestionError = MissingField | QuestionTooLong | AnswerTooLong

  datatype QuestionForm = QuestionForm(question: string, answer: string)

  /**
   * `publicarPregunta`: both fields trimmed and non-empty, then the question
   * length, then the answer length, both in UTF-16 code units.
   */
  function ValidateQuestion(question: string, answer: string): (r: Result<QuestionForm, QuestionError>)
    ensures r.Ok? <==>
              && Text.Trim(question) != "" && Text.Utf16Length(Text.Trim(question)) <= MaxQuestionLength
              && Text.Trim(answer) != "" && Text.Utf16Length(Text.Trim(answer)) <= MaxAnswerLength
    ensures r.Ok? ==> r.value == QuestionForm(Text.Trim(question), Text.Trim(answer))
    ensures r == Err(MissingField) <==> Text.Trim(question) == "" || Text.Trim(answer) == ""
    ensures r == Err(QuestionTooLong) <==>
              Text.Trim(question) != "" && Text.Trim(answer) != "" && Text.Utf16Length(Text.Trim(question)) > MaxQuestionLength
  {
    var q := Text.Trim(question);
    var a := Text.Trim(answer);
    if q == "" || a == "" then Err(MissingField)
    else if Text.Utf16Length(q) > MaxQuestionLength then Err(QuestionTooLong)
    else if Text.Utf16Length(a) > MaxAnswerLength then Err(AnswerTooLong)
    else Ok(QuestionForm(q, a))
  }

  /** An answer the form lets through never normalises to the empty string. */
  lemma AcceptedAnswerIsNotBlank(question: string, answer: string)
    requires ValidateQuestion(question, answer).Ok?
    ensures Text.Normalize(ValidateQuestion(question, answer).value.answer) != ""
  {
    var a := Text.Trim(answer);
    Text.LowerTrimCommute(a);
    Text.TrimIdempotent(answer);
  }

  // ----- Sending an answer -----

  datatype SendError = EmptyAnswer | NoActiveQuestion

  /** `enviarRespuesta`: the trimmed answer, refused when empty and otherwise when no question is active. */
  function CheckAnswer(input: string, questionActive: bool): (r: Result<string, SendError>)
    ensures r == Err(EmptyAnswer) <==> Text.Trim(input) == ""
    ensures r == Err(NoActiveQuestion) <==> Text.Trim(input) != "" && !questionActive
    ensures r.Ok? <==> Text.Trim(input) != "" && questionActive
    ensures r.Ok? ==> r.value == Text.Trim(input)
  {
    var a := Text.Trim(input);
    if a == "" then Err(EmptyAnswer)
    else if !questionActive then Err(NoActiveQuestion)
    else Ok(a)
  }

  // ----- The leaderboard -----

  /** `.filter(([nombre]) => nombre.toLowerCase() !== 'docente')`. */
  function Visible(entries: seq<Ledger.Entry>): (r: seq<Ledger.Entry>)
    ensures |r| <= |entries|
    ensures forall e :: e in r <==> e in entries && Text.Lower(e.name) != "docente"
  {
    if entries == [] then []
    else if Text.Lower(entries[0].name) != "docente" then [entries[0]] + Visible(entries[1..])
    else Visible(entries[1..])
  }

  /** The filter works entry by entry: it keeps an entry exactly when its name is not "docente". */
  lemma VisibleOne(e: Ledger.Entry)
    ensures Visible([e]) == if Text.Lower(e.name) != "docente" then [e] else []
  {
    assert [e][1..] == [];
  }

  /** ... and it keeps the received order: filtering a concatenation concatenates the filtered parts. */
  lemma {:induction false} VisibleConcat(a: seq<Ledger.Entry>, b: seq<Ledger.Entry>)
    ensures Visible(a + b) == Visible(a) + Visible(b)
    decreases |a|
  {
    if a == [] {
      assert a + b == b;
    } else {
      assert (a + b)[0] == a[0];
      assert (a + b)[1..] == a[1..] + b;
      VisibleConcat(a[1..], b);
    }
  }

  /** Non-increasing points from the top. */
  predicate Descending(l: seq<Ledger.Entry>) {
    forall i, j :: 0 <= i < j < |l| ==> l[i].points >= l[j].points
  }

  /** The entries with exactly `v` points, in their order in `l`. */
  function WithPoints(l: seq<Ledger.Entry>, v: nat): seq<Ledger.Entry> {
    if l == [] then []
    else if l[0].points == v then [l[0]] + WithPoints(l[1..], v)
    else WithPoints(l[1..], v)
  }

  /** Puts `x` before the first entry that does not have more points than it. */
  function Insert(x: Ledger.Entry, l: seq<Ledger.Entry>): seq<Ledger.Entry> {
    if l == [] || l[0].points <= x.points then [x] + l
    else [l[0]] + Insert(x, l[1..])
  }

  /**
   * `.sort(([,a], [,b]) => b - a)`: JavaScript's sort is stable, so this is the
   * arrangement by non-increasing points in which entries with equal points keep
   * their input order.
   */
  function SortByPoints(l: seq<Ledger.Entry>): (r: seq<Ledger.Entry>)
    ensures Descending(r)
    ensures multiset(r) == multiset(l)
    ensures forall v :: WithPoints(r, v) == WithPoints(l, v)
  {
    if l == [] then []
    else
      var rest := SortByPoints(l[1..]);
      InsertDescending(l[0], rest);
      InsertMultiset(l[0], rest);
      InsertWithPoints(l[0], rest);
      WithPointsCons(l);
      assert l == [l[0]] + l[1..];
      Insert(l[0], rest)
  }

  lemma WithPointsCons(l: seq<Ledger.Entry>)
    requires l != []
    ensures forall v :: WithPoints(l, v) == WithPoints([l[0]], v) + WithPoints(l[1..], v)
  {
    forall v ensures WithPoints(l, v) == WithPoints([l[0]], v) + WithPoints(l[1..], v) {
      var single := [l[0]];
      assert single[1..] == [];
      assert WithPoints(single, v) == if l[0].points == v then single else [];
    }
  }

  lemma {:induction false} InsertDescending(x: Ledger.Entry, l: seq<Ledger.Entry>)
    requires Descending(l)
    ensures Descending(Insert(x, l))
    ensures |Insert(x, l)| == |l| + 1
    ensures forall i :: 0 <= i < |Insert(x, l)| ==> Insert(x, l)[i] == x || Insert(x, l)[i] in l
  {
    if l != [] && l[0].points > x.points {
      InsertDescending(x, l[1..]);
      var t := Insert(x, l[1..]);
      assert Insert(x, l) == [l[0]] + t;
      forall i | 0 < i < |t| + 1 ensures l[0].points >= ([l[0]] + t)[i].points {
        assert ([l[0]] + t)[i] == t[i - 1];
        if t[i - 1] != x {
          assert t[i - 1] in l[1..];
        }
      }
    }
  }

  lemma {:induction false} InsertMultiset(x: Ledger.Entry, l: seq<Ledger.Entry>)
    ensures multiset(Insert(x, l)) == multiset{x} + multiset(l)
  {
    if l != [] && l[0].points > x.points {
      InsertMultiset(x, l[1..]);
      assert l == [l[0]] + l[1..];
    }
  }

  lemma {:induction false} InsertWithPoints(x: Ledger.Entry, l: seq<Ledger.Entry>)
    requires Descending(l)
    ensures forall v :: WithPoints(Insert(x, l), v) == WithPoints([x], v) + WithPoints(l, v)
  {
    if l == [] || l[0].points <= x.points {
      WithPointsCons([x] + l);
      assert ([x] + l)[1..] == l;
    } else {
      var tail := Insert(x, l[1..]);
      InsertWithPoints(x, l[1..]);
      assert Insert(x, l) == [l[0]] + tail;
      WithPointsCons([l[0]] + tail);
      assert ([l[0]] + tail)[1..] == tail;
      WithPointsCons(l);
      forall v ensures WithPoints(Insert(x, l), v) == WithPoints([x], v) + WithPoints(l, v) {
        if x.points == v {
          assert WithPoints([l[0]], v) == [];
        }
      }
    }
  }

  /** Dropping the moderator and picking one score can be done in either order. */
  lemma {:induction false} VisibleWithPoints(l: seq<Ledger.Entry>, v: nat)
    ensures WithPoints(Visible(l), v) == Visible(WithPoints(l, v))
    decreases |l|
  {
    if l != [] {
      VisibleWithPoints(l[1..], v);
      var e := l[0];
      var rest := Visible(l[1..]);
      if Text.Lower(e.name) != "docente" {
        assert ([e] + rest)[0] == e && ([e] + rest)[1..] == rest;
      }
      if e.points == v {
        var w := WithPoints(l[1..], v);
        assert ([e] + w)[0] == e && ([e] + w)[1..] == w;
      }
    }
  }

  /** One line of the board; `rank` is `index + 1`. */
  datatype Row = Row(rank: nat, name: string, points: nat)

  /** `actualizarEstadisticas`: drop the moderator, sort by points, number from 1. */
  function Leaderboard(entries: seq<Ledger.Entry>): (rows: seq<Row>) {
    var sorted := SortByPoints(Visible(entries));
    seq(|sorted|, i requires 0 <= i < |sorted| => Row(i + 1, sorted[i].name, sorted[i].points))
  }

  /**
   * The board holds exactly the entries not named "docente" (in any case), in
   * non-increasing order of points, ranked 1, 2, …; entries with equal points
   * appear in the order the server sent them: those with `v` points are the
   * received entries with `v` points, filtered.
   */
  lemma LeaderboardSpec(entries: seq<Ledger.Entry>)
    ensures var rows := Leaderboard(entries);
      var sorted := SortByPoints(Visible(entries));
      && |rows| == |Visible(entries)|
      && (forall i :: 0 <= i < |rows| ==>
            rows[i].rank == i + 1 && Ledger.Entry(rows[i].name, rows[i].points) == sorted[i])
      && (forall i, j :: 0 <= i < j < |rows| ==> rows[i].points >= rows[j].points)
      && (forall e :: e in sorted <==> e in entries && Text.Lower(e.name) != "docente")
      && (forall v :: WithPoints(sorted, v) == Visible(WithPoints(entries, v)))
  {
    var sorted := SortByPoints(Visible(entries));
    forall v ensures WithPoints(sorted, v) == Visible(WithPoints(entries, v)) {
      VisibleWithPoints(entries, v);
    }
    assert |multiset(sorted)| == |multiset(Visible(entries))|;
    forall e ensures e in sorted <==> e in Visible(entries) {
      assert e in sorted <==> e in multiset(sorted);
      assert e in Visible(entries) <==> e in multiset(Visible(entries));
    }
  }

  // ----- The question clock -----

  /** `Number.prototype.toString()` of a non-negative integer. */
  function NatToString(n: nat): string
    decreases n
  {
    if n < 10 then [DigitChar(n)] else NatToString(n / 10) + [DigitChar(n % 10)]
  }

  function DigitChar(d: nat): char
    requires d < 10
  {
    ('0' as int + d) as char
  }

  predicate IsDigit(c: char) {
    '0' <= c <= '9'
  }

  /** The value of a string of decimal digits. */
  function DigitsValue(s: string): nat
    requires forall i :: 0 <= i < |s| ==> IsDigit(s[i])
  {
    if s == [] then 0
    else
      var last := s[|s| - 1];
      assert IsDigit(last);
      DigitsValue(s[..|s| - 1]) * 10 + (last as int - '0' as int)
  }

  /** Decimal printing is undone by reading the digits back. */
  lemma {:induction false} NatToStringRoundTrip(n: nat)
    ensures |NatToString(n)| > 0
    ensures forall i :: 0 <= i < |NatToString(n)| ==> IsDigit(NatToString(n)[i])
    ensures DigitsValue(NatToString(n)) == n
    decreases n
  {
    if n >= 10 {
      NatToStringRoundTrip(n / 10);
      var s := NatToString(n);
      assert s[..|s| - 1] == NatToString(n / 10);
    }
  }

  /** `Number.prototype.toString()`, with a minus sign for negatives. */
  function IntToString(i: int): string {
    if i < 0 then "-" + NatToString(-i) else NatToString(i)
  }

  /** `padStart(2, '0')`. */
  function PadStart2(s: string): string {
    if |s| >= 2 then s else seq(2 - |s|, _ => '0') + s
  }

  /** Padding gives at least two characters: the input at the end, zeros before it. */
  lemma PadStart2Shape(s: string)
    ensures var r := PadStart2(s);
      && |r| == (if |s| >= 2 then |s| else 2)
      && r[|r| - |s|..] == s
      && (forall i :: 0 <= i < |r| - |s| ==> r[i] == '0')
  {
  }

  /**
   * JavaScript's `%`, whose result takes the sign of the dividend: `a` is a
   * multiple of `b` by the quotient rounded toward zero, plus the remainder.
   */
  function JsRem(a: int, b: int): (r: int)
    requires b > 0
    ensures -b < r < b
    ensures a >= 0 ==> r >= 0
    ensures a <= 0 ==> r <= 0
    ensures a == b * (if a >= 0 then a / b else -((-a) / b)) + r
  {
    if a >= 0 then a % b else -((-a) % b)
  }

  /**
   * `Math.floor(ms / 1000)`, then `Math.floor(t / 60)` and `t % 60`. Dafny's
   * division by a positive divisor already rounds down, as `Math.floor` does.
   */
  function Clock(elapsedMs: int): (int, int) {
    var t := elapsedMs / 1000;
    (t / 60, JsRem(t, 60))
  }

  /** `${minutos}:${segundos.toString().padStart(2, '0')}`. */
  function FormatClock(elapsedMs: int): string {
    var (minutes, seconds) := Clock(elapsedMs);
    IntToString(minutes) + ":" + PadStart2(IntToString(seconds))
  }

  /** For a non-negative elapsed time, total seconds split into minutes and 0..59 seconds. */
  lemma ClockSplits(elapsedMs: int)
    requires elapsedMs >= 0
    ensures var (m, s) := Clock(elapsedMs);
      0 <= s < 60 && 0 <= m && m * 60 + s == elapsedMs / 1000
  {
  }

  /**
   * For a non-negative elapsed time the clock reads `m:ss`: the minutes in
   * decimal, a colon, and exactly two digits of seconds, and reading the digits
   * back gives the elapsed whole seconds.
   */
  lemma FormatClockShape(elapsedMs: int)
    requires elapsedMs >= 0
    ensures var r := FormatClock(elapsedMs); var n := |r|;
      && n >= 4 && r[n - 3] == ':'
      && (forall i :: 0 <= i < n && i != n - 3 ==> IsDigit(r[i]))
      && DigitsValue(r[..n - 3]) * 60 + DigitsValue(r[n - 2..]) == elapsedMs / 1000
      && DigitsValue(r[n - 2..]) < 60
  {
    var (m, s) := Clock(elapsedMs);
    ClockSplits(elapsedMs);
    ClockText(m, s);
  }

  /** The text `m:ss` of a split with seconds in 0..59, and the digits it reads back to. */
  lemma ClockText(m: nat, s: nat)
    requires s < 60
    ensures var r := IntToString(m) + ":" + PadStart2(IntToString(s)); var n := |r|;
      && n >= 4 && r[n - 3] == ':'
      && (forall i :: 0 <= i < n && i != n - 3 ==> IsDigit(r[i]))
      && DigitsValue(r[..n - 3]) == m && DigitsValue(r[n - 2..]) == s
  {
    NatToStringRoundTrip(m);
    NatToStringRoundTrip(s);
    var ms := NatToString(m);
    var ss := PadStart2(NatToString(s));
    var r := ms + ":" + ss;
    assert r[..|r| - 3] == ms;
    assert r[|r| - 2..] == ss;
    if s < 10 {
      assert ss == ['0', DigitChar(s)];
      assert ss[..1] == ['0'];
    } else {
      assert ss == NatToString(s);
    }
  }

  /** A client clock behind the server's shows a negative time: five seconds early reads "-1:-5". */
  lemma NegativeElapsedShowsMinus()
    ensures FormatClock(-5000) == "-1:-5"
  {
    assert Clock(-5000) == (-1, -5);
  }

  /** `actualizarTimer`: nothing is shown while `tiempoInicio` is null or 0. */
  function TimerText(start: Option<int>, now: int): (r: Option<string>)
    ensures r.None? <==> start.None? || start.value == 0
  {
    if start.None? || start.value == 0 then None else Some(FormatClock(now - start.value))
  }
}
