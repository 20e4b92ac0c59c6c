/** The SMTP conversation of `sendSmtp`, `smtpConnect` and `smtpCommand`
    (gnzmailer.php:185-297): commands and expected reply codes as in section
    4.1 of RFC 5321, STARTTLS as in section 4 of RFC 3207, and AUTH LOGIN.

    The conversation is linear: each step sends one command and needs one exact
    reply code; the first mismatch ends it. It is modelled as a PLAN, the list
    of steps the configuration and envelope call for, and a runner that walks
    the plan against a scripted server. The socket is that script: whether
    `fsockopen` succeeds, whether the TLS handshake succeeds, and the strings
    successive `fgets` calls return.

    Lemmas about runs and plans carry `{:induction false}` whether or not they
    recurse: it keeps Dafny from trying automatic induction over their
    sequence parameters, which made the solver's effort unstable. */
module Smtp {
  import opened Options
  import opened PhpText
  import Base64
  import Reply

  /** The SMTP settings the mailer reads: host, port, user name, password and
      the encryption setting ("tls" for STARTTLS, "ssl" for a TLS socket from
      the start, any other value for none). */
  datatype Config = Config(host: string, port: int, user: string, pass: string, encryption: string)

  /** The outcome of `fsockopen`: a socket, or the error number and text. */
  datatype Connect = Opened | Refused(errno: int, errstr: string)

  /** The network as one session sees it. */
  datatype Server = Server(connect: Connect, tlsOk: bool, lines: seq<string>)

  predicate StartTls(cfg: Config) {
    cfg.encryption == "tls"
  }

  predicate ImplicitTls(cfg: Config) {
    cfg.encryption == "ssl"
  }

  predicate Authenticates(cfg: Config) {
    !Empty(cfg.user)
  }

  /** The host string handed to `fsockopen` (lines 272-275). */
  function Target(cfg: Config): (t: string)
    ensures t == "ssl://" + cfg.host <==> ImplicitTls(cfg)
    ensures t == cfg.host <==> !ImplicitTls(cfg)
  {
    if ImplicitTls(cfg) then "ssl://" + cfg.host else cfg.host
  }

  /* ---------------------------------------------------------------------- */
  /* The plan                                                                 */
  /* ---------------------------------------------------------------------- */

  /** One step of the conversation: a command and the code its reply must
      carry, or the TLS handshake that follows STARTTLS. */
  datatype Step = Command(text: string, code: nat) | EnableTls

  function Ehlo(cfg: Config): Step {
    Command("EHLO " + cfg.host, 250)
  }

  /** Lines 193-201. */
  function TlsSteps(cfg: Config): seq<Step> {
    if StartTls(cfg) then [Command("STARTTLS", 220), EnableTls, Ehlo(cfg)] else []
  }

  /** Lines 203-207: the user name and password go out base64-encoded. */
  function AuthSteps(cfg: Config): seq<Step> {
    if Authenticates(cfg) then
      [Command("AUTH LOGIN", 334),
       Command(Base64.Encode(Base64.Latin1(cfg.user)), 334),
       Command(Base64.Encode(Base64.Latin1(cfg.pass)), 235)]
    else []
  }

  function MailFrom(from: string): string {
    "MAIL FROM:<" + from + ">"
  }

  function RcptTo(addr: string): string {
    "RCPT TO:<" + addr + ">"
  }

  /** Lines 210-220: one RCPT TO per address, in order, duplicates kept. */
  function RcptSteps(addrs: seq<string>): (r: seq<Step>)
    ensures |r| == |addrs|
    ensures forall i :: 0 <= i < |addrs| ==> r[i] == Command(RcptTo(addrs[i]), 250)
    decreases |addrs|
  {
    if |addrs| == 0 then [] else [Command(RcptTo(addrs[0]), 250)] + RcptSteps(addrs[1..])
  }

  /** Every step after the greeting, up to and including the message data. */
  function Plan(cfg: Config, from: string, rcpts: seq<string>, data: string): seq<Step> {
    [Ehlo(cfg)] + TlsSteps(cfg) + AuthSteps(cfg)
    + [Command(MailFrom(from), 250)]
    + RcptSteps(rcpts)
    + [Command("DATA", 354), Command(data, 250)]
  }

  /** The plan holds one step per recipient and four fixed steps (EHLO, MAIL
      FROM, DATA, the data), three more for STARTTLS and three more for AUTH
      LOGIN; it always ends with DATA (354) and the message data (250). */
  lemma PlanLength(cfg: Config, from: string, rcpts: seq<string>, data: string)
    ensures var p := Plan(cfg, from, rcpts, data);
      && |p| == |rcpts| + 4 + (if StartTls(cfg) then 3 else 0) + (if Authenticates(cfg) then 3 else 0)
      && p[|p| - 2] == Command("DATA", 354) && p[|p| - 1] == Command(data, 250)
  {
    var p := Plan(cfg, from, rcpts, data);
    var head := [Ehlo(cfg)] + TlsSteps(cfg) + AuthSteps(cfg) + [Command(MailFrom(from), 250)] + RcptSteps(rcpts);
    assert p == head + [Command("DATA", 354), Command(data, 250)];
  }

  /** The command texts of a list of steps, in order. */
  function Commands(steps: seq<Step>): seq<string>
    decreases |steps|
  {
    if |steps| == 0 then []
    else (if steps[0].Command? then [steps[0].text] else []) + Commands(steps[1..])
  }

  lemma {:induction false} CommandsAppend(a: seq<Step>, b: seq<Step>)
    ensures Commands(a + b) == Commands(a) + Commands(b)
    decreases |a|
  {
    if |a| == 0 {
      assert a + b == b;
    } else {
      var c := a + b;
      assert c[0] == a[0] && c[1..] == a[1..] + b;
      CommandsAppend(a[1..], b);
      var first := if a[0].Command? then [a[0].text] else [];
      assert Commands(c) == first + Commands(a[1..] + b);
      assert Commands(a) == first + Commands(a[1..]);
    }
  }

  /** Cutting one more step off the front of a prefix. */
  lemma CommandsPrefixStep(steps: seq<Step>, k: nat)
    requires 0 < |steps| && k < |steps|
    ensures Commands(steps[..k + 1]) ==
      (if steps[0].Command? then [steps[0].text] else []) + Commands(steps[1..][..k])
  {
    assert steps[..k + 1][1..] == steps[1..][..k];
  }


  /* ---------------------------------------------------------------------- */
  /* Running the plan                                                         */
  /* ---------------------------------------------------------------------- */

  const TlsFailed: string := "Failed to enable TLS."

  /** Reads one reply from the lines and judges its code against the expected
      one. The session uses `Reply.Expect` (`smtpGetResponse`); the runner is
      stated for any reader, so that its properties rest on the order of the
      steps alone. */
  type Reader = (int, seq<string>) -> Reply.Answer

  /** How far a run got: the commands written to the socket, the reply lines not
      yet read, how many steps completed, and the error of the step that failed. */
  datatype Progress = Progress(sent: seq<string>, rest: seq<string>, completed: nat, failure: Option<string>)

  /** Walks the plan; the first step that fails ends the run (every
      `if (!...) return false;` of lines 191-263). A command is written before
      its reply is read, so a failing command is among the commands sent. */
  function Run(plan: seq<Step>, lines: seq<string>, tlsOk: bool, read: Reader): (r: Progress)
    ensures r.completed <= |plan|
    ensures r.failure.None? <==> r.completed == |plan|
    decreases |plan|
  {
    if |plan| == 0 then Progress([], lines, 0, None)
    else match plan[0]
      case EnableTls =>
        if !tlsOk then Progress([], lines, 0, Some(TlsFailed))
        else
          var r := Run(plan[1..], lines, tlsOk, read);
          Progress(r.sent, r.rest, r.completed + 1, r.failure)
      case Command(text, code) =>
        var a := read(code, lines);
        if a.outcome.Fail? then Progress([text], a.rest, 0, Some(a.outcome.error))
        else
          var r := Run(plan[1..], a.rest, tlsOk, read);
          Progress([text] + r.sent, r.rest, r.completed + 1, r.failure)
  }

  /** One passing command: the run continues on the lines after its reply. */
  lemma {:induction false} RunAfterPass(plan: seq<Step>, lines: seq<string>, next: seq<string>, tlsOk: bool, read: Reader)
    requires |plan| > 0 && plan[0].Command?
    requires read(plan[0].code, lines) == Reply.Answer(Reply.Pass, next)
    ensures var r' := Run(plan[1..], next, tlsOk, read);
      Run(plan, lines, tlsOk, read) == Progress([plan[0].text] + r'.sent, r'.rest, r'.completed + 1, r'.failure)
  {
  }

  /** One failing command: the run stops with that command as the only one sent. */
  lemma {:induction false} RunAfterFail(plan: seq<Step>, lines: seq<string>, tlsOk: bool, read: Reader)
    requires |plan| > 0 && plan[0].Command?
    requires read(plan[0].code, lines).outcome.Fail?
    ensures var a := read(plan[0].code, lines);
      Run(plan, lines, tlsOk, read) == Progress([plan[0].text], a.rest, 0, Some(a.outcome.error))
  {
  }

  /** What a run sends: all commands when it completes; otherwise those up to
      and including the failing step, and nothing after it. A failing handshake
      step means the handshake failed and carries the TLS error. */
  predicate SentAsPlanned(plan: seq<Step>, lines: seq<string>, tlsOk: bool, read: Reader) {
    var r := Run(plan, lines, tlsOk, read);
    && (r.failure.None? ==> r.sent == Commands(plan))
    && (r.failure.Some? ==> r.sent == Commands(plan[..r.completed + 1]))
    && (r.failure.Some? && plan[r.completed].EnableTls? ==> !tlsOk && r.failure.value == TlsFailed)
  }

  lemma {:induction false} RunSent(plan: seq<Step>, lines: seq<string>, tlsOk: bool, read: Reader)
    ensures SentAsPlanned(plan, lines, tlsOk, read)
    decreases |plan|
  {
    if |plan| > 0 {
      var r := Run(plan, lines, tlsOk, read);
      assert plan[..1] == [plan[0]];
      if plan[0].EnableTls? && tlsOk {
        var r' := Run(plan[1..], lines, tlsOk, read);
        RunSent(plan[1..], lines, tlsOk, read);
        assert r == Progress(r'.sent, r'.rest, r'.completed + 1, r'.failure);
        if r.failure.Some? {
          CommandsPrefixStep(plan, r.completed);
          assert plan[r.completed] == plan[1..][r'.completed];
        }
      } else if plan[0].Command? && read(plan[0].code, lines).outcome.Pass? {
        var next := read(plan[0].code, lines).rest;
        var r' := Run(plan[1..], next, tlsOk, read);
        RunSent(plan[1..], next, tlsOk, read);
        RunAfterPass(plan, lines, next, tlsOk, read);
        if r.failure.Some? {
          CommandsPrefixStep(plan, r.completed);
          assert plan[r.completed] == plan[1..][r'.completed];
        }
      }
    }
  }

  /** The commands of a prefix of the steps are a prefix of the commands. */
  lemma CommandsTake(steps: seq<Step>, k: nat)
    requires k <= |steps|
    ensures |Commands(steps[..k])| <= |Commands(steps)|
    ensures Commands(steps[..k]) == Commands(steps)[..|Commands(steps[..k])|]
  {
    CommandsAppend(steps[..k], steps[k..]);
    assert steps == steps[..k] + steps[k..];
  }

  /** What a run has sent is always a prefix of the plan's commands, and all of
      them when it completes. */
  lemma {:induction false} RunSentPrefix(plan: seq<Step>, lines: seq<string>, tlsOk: bool, read: Reader)
    ensures var r := Run(plan, lines, tlsOk, read);
      && |r.sent| <= |Commands(plan)|
      && r.sent == Commands(plan)[..|r.sent|]
      && (r.failure.None? ==> r.sent == Commands(plan))
  {
    var r := Run(plan, lines, tlsOk, read);
    RunSent(plan, lines, tlsOk, read);
    if r.failure.Some? {
      CommandsTake(plan, r.completed + 1);
    }
  }

  /* ---------------------------------------------------------------------- */
  /* The session                                                              */
  /* ---------------------------------------------------------------------- */

  /** The result of one session: the host and port dialled, the verdict `sendSmtp`
      returns, the commands written in order, the error text it leaves (None
      when it leaves the error field alone), and whether the DATA command was
      accepted (the point where the message gets built). */
  datatype Session = Session(target: string, port: int, ok: bool, sent: seq<string>, error: Option<string>, dataAccepted: bool)

  /** `sendSmtp` after validation: connect (`smtpConnect`, which also reads the
      220 greeting), run the plan, then QUIT. The QUIT reply is read but cannot
      turn success into failure; a mismatch there only leaves its error text. */
  function Converse(cfg: Config, server: Server, from: string, rcpts: seq<string>, data: string): (s: Session)
    ensures s.target == Target(cfg) && s.port == cfg.port
    ensures s.ok ==> s.sent == Commands(Plan(cfg, from, rcpts, data)) + ["QUIT"] && s.dataAccepted
    ensures !s.ok ==> s.error.Some?
    ensures !s.ok ==> (|s.sent| <= |Commands(Plan(cfg, from, rcpts, data))|
                       && s.sent == Commands(Plan(cfg, from, rcpts, data))[..|s.sent|])
    ensures server.connect.Refused? ==>
      !s.ok && s.sent == [] && s.error == Some(IntString(server.connect.errno) + " - " + server.connect.errstr)
    ensures server.connect.Opened? && Reply.Expect(220, server.lines).outcome.Fail? ==>
      !s.ok && s.sent == [] && s.error == Some(Reply.Expect(220, server.lines).outcome.error)
  {
    var target := Target(cfg);
    match server.connect
    case Refused(errno, errstr) =>
      Session(target, cfg.port, false, [], Some(IntString(errno) + " - " + errstr), false)
    case Opened =>
      var greeting := Reply.Expect(220, server.lines);
      if greeting.outcome.Fail? then Session(target, cfg.port, false, [], Some(greeting.outcome.error), false)
      else
        var plan := Plan(cfg, from, rcpts, data);
        var r := Run(plan, greeting.rest, server.tlsOk, Reply.Expect);
        RunSentPrefix(plan, greeting.rest, server.tlsOk, Reply.Expect);
        if r.failure.Some? then
          Session(target, cfg.port, false, r.sent, r.failure, r.completed + 1 == |plan|)
        else
          var quit := Reply.Expect(221, r.rest);
          Session(target, cfg.port, true, r.sent + ["QUIT"],
                  if quit.outcome.Fail? then Some(quit.outcome.error) else None, true)
  }

  /** Once the greeting passes, the session's verdict, transcript and error are
      those of the run of the plan, plus QUIT after a complete run. */
  lemma {:induction false} ConverseAfterGreeting(cfg: Config, server: Server, from: string, rcpts: seq<string>, data: string)
    requires server.connect.Opened? && Reply.Expect(220, server.lines).outcome.Pass?
    ensures var plan := Plan(cfg, from, rcpts, data);
      var r := Run(plan, Reply.Expect(220, server.lines).rest, server.tlsOk, Reply.Expect);
      var s := Converse(cfg, server, from, rcpts, data);
      && (s.ok <==> r.failure.None?)
      && (r.failure.Some? ==> s.sent == r.sent && s.error == r.failure && (s.dataAccepted <==> r.completed + 1 == |plan|))
      && (r.failure.None? ==> s.sent == r.sent + ["QUIT"] && s.dataAccepted
                              && (s.error.None? <==> Reply.Expect(221, r.rest).outcome.Pass?))
  {
  }

  /** A greeting with another code ends the session before any command is
      sent, with the mismatch as the error. */
  lemma {:induction false} ConverseBadGreeting(cfg: Config, from: string, rcpts: seq<string>, data: string,
                                              code: nat, text: string, later: seq<string>, tlsOk: bool)
    requires 100 <= code < 1000 && code != 220
    ensures var s := Converse(cfg, Server(Opened, tlsOk, [Reply.ReplyLine(code, text)] + later), from, rcpts, data);
      && !s.ok && s.sent == [] && !s.dataAccepted
      && s.error == Some(Reply.Mismatch(220, code, Reply.ReplyLine(code, text)))
  {
    Reply.ExpectWrongCode(220, code, text, later);
  }

  /* ---------------------------------------------------------------------- */
  /* The plan's shape                                                         */
  /* ---------------------------------------------------------------------- */

  /** After the greeting, the first command is always EHLO with the host name. */
  lemma PlanOpensWithEhlo(cfg: Config, from: string, rcpts: seq<string>, data: string)
    ensures Plan(cfg, from, rcpts, data)[0] == Command("EHLO " + cfg.host, 250)
  {
  }

  /** STARTTLS (expecting 220) and the TLS handshake are in the plan exactly
      when the encryption setting is "tls"; then they come right after the
      first EHLO and are followed by a second EHLO. */
  lemma {:induction false} PlanStartTls(cfg: Config, from: string, rcpts: seq<string>, data: string)
    ensures var plan := Plan(cfg, from, rcpts, data);
      && (Command("STARTTLS", 220) in plan <==> StartTls(cfg))
      && (EnableTls in plan <==> StartTls(cfg))
      && (StartTls(cfg) ==> plan[1..4] == [Command("STARTTLS", 220), EnableTls, Ehlo(cfg)])
  {
    var plan := Plan(cfg, from, rcpts, data);
    var tail := AuthSteps(cfg) + [Command(MailFrom(from), 250)] + RcptSteps(rcpts)
      + [Command("DATA", 354), Command(data, 250)];
    assert plan == [Ehlo(cfg)] + TlsSteps(cfg) + tail;
    TailNoTls(cfg, from, rcpts, data);
  }

  /** Nothing after the STARTTLS block is STARTTLS or the handshake. */
  lemma TailNoTls(cfg: Config, from: string, rcpts: seq<string>, data: string)
    ensures var tail := AuthSteps(cfg) + [Command(MailFrom(from), 250)] + RcptSteps(rcpts)
      + [Command("DATA", 354), Command(data, 250)];
      Command("STARTTLS", 220) !in tail && EnableTls !in tail
  {
    var tail := AuthSteps(cfg) + [Command(MailFrom(from), 250)] + RcptSteps(rcpts)
      + [Command("DATA", 354), Command(data, 250)];
    forall i | 0 <= i < |tail|
      ensures tail[i] != Command("STARTTLS", 220) && tail[i] != EnableTls
    {
      if i < |AuthSteps(cfg)| {
      } else if i == |AuthSteps(cfg)| {
      } else if i < |AuthSteps(cfg)| + 1 + |rcpts| {
        assert tail[i] == RcptSteps(rcpts)[i - |AuthSteps(cfg)| - 1];
      } else {
      }
    }
  }

  /** AUTH LOGIN, the encoded user name and the encoded password are sent,
      expecting 334, 334 and 235, when the user name is not empty; they come
      after the EHLO (and the STARTTLS block) and right before MAIL FROM. */
  lemma {:induction false} PlanAuthPlacement(cfg: Config, from: string, rcpts: seq<string>, data: string)
    ensures var plan := Plan(cfg, from, rcpts, data);
      var k := 1 + |TlsSteps(cfg)|;
      && (Authenticates(cfg) ==>
            plan[k..k + 4] == [Command("AUTH LOGIN", 334),
                               Command(Base64.Encode(Base64.Latin1(cfg.user)), 334),
                               Command(Base64.Encode(Base64.Latin1(cfg.pass)), 235),
                               Command(MailFrom(from), 250)])
      && (!Authenticates(cfg) ==> plan[k] == Command(MailFrom(from), 250))
  {
    var head := [Ehlo(cfg)] + TlsSteps(cfg);
    var tail := [Command(MailFrom(from), 250)] + RcptSteps(rcpts) + [Command("DATA", 354), Command(data, 250)];
    assert Plan(cfg, from, rcpts, data) == head + AuthSteps(cfg) + tail;
  }

  /** AUTH LOGIN is among the commands sent on a full run exactly when the user
      name is not empty: no other command of the plan can be mistaken for it,
      since the message data opens with its From header. */
  lemma {:induction false} PlanAuth(cfg: Config, from: string, rcpts: seq<string>, data: string)
    requires StartsWith(data, "From: ")
    ensures "AUTH LOGIN" in Commands(Plan(cfg, from, rcpts, data)) <==> Authenticates(cfg)
  {
    var head := [Ehlo(cfg)] + TlsSteps(cfg);
    var tail := [Command(MailFrom(from), 250)] + RcptSteps(rcpts) + [Command("DATA", 354), Command(data, 250)];
    assert Plan(cfg, from, rcpts, data) == head + AuthSteps(cfg) + tail;
    CommandsAppend(head + AuthSteps(cfg), tail);
    CommandsAppend(head, AuthSteps(cfg));
    HeadNoAuth(cfg);
    TailNoAuth(from, rcpts, data);
    if Authenticates(cfg) {
      assert Commands(AuthSteps(cfg))[0] == "AUTH LOGIN";
    } else {
      assert Commands(AuthSteps(cfg)) == [];
    }
  }

  lemma HeadNoAuth(cfg: Config)
    ensures "AUTH LOGIN" !in Commands([Ehlo(cfg)] + TlsSteps(cfg))
  {
    var head := [Ehlo(cfg)] + TlsSteps(cfg);
    forall i | 0 <= i < |head| && head[i].Command?
      ensures |head[i].text| > 0 && head[i].text[0] != 'A'
    {
    }
    NoAuthLoginIn(head);
  }

  lemma TailNoAuth(from: string, rcpts: seq<string>, data: string)
    requires StartsWith(data, "From: ")
    ensures "AUTH LOGIN" !in Commands([Command(MailFrom(from), 250)] + RcptSteps(rcpts)
                                      + [Command("DATA", 354), Command(data, 250)])
  {
    TailOpenings(from, rcpts, data);
    NoAuthLoginIn([Command(MailFrom(from), 250)] + RcptSteps(rcpts) + [Command("DATA", 354), Command(data, 250)]);
  }

  /** The envelope block's commands open with M, R, D or F, never with A. */
  lemma {:induction false} TailOpenings(from: string, rcpts: seq<string>, data: string)
    requires StartsWith(data, "From: ")
    ensures var tail := [Command(MailFrom(from), 250)] + RcptSteps(rcpts) + [Command("DATA", 354), Command(data, 250)];
      forall i :: 0 <= i < |tail| && tail[i].Command? ==> |tail[i].text| > 0 && tail[i].text[0] != 'A'
  {
    var tail := [Command(MailFrom(from), 250)] + RcptSteps(rcpts) + [Command("DATA", 354), Command(data, 250)];
    forall i | 0 <= i < |tail| && tail[i].Command?
      ensures |tail[i].text| > 0 && tail[i].text[0] != 'A'
    {
      if i == 0 {
      } else if i <= |rcpts| {
        assert tail[i] == RcptSteps(rcpts)[i - 1];
      } else if i == |rcpts| + 1 {
      } else {
        assert tail[i].text == data;
        assert data[0] == 'F';
      }
    }
  }

  /** No step of the EHLO/STARTTLS block or of the envelope block is AUTH LOGIN. */
  lemma NoAuthLoginIn(steps: seq<Step>)
    requires forall i :: 0 <= i < |steps| && steps[i].Command? ==>
      |steps[i].text| > 0 && steps[i].text[0] != 'A'
    ensures "AUTH LOGIN" !in Commands(steps)
  {
    CommandsFirstChars(steps);
  }

  lemma {:induction false} CommandsFirstChars(steps: seq<Step>)
    requires forall i :: 0 <= i < |steps| && steps[i].Command? ==>
      |steps[i].text| > 0 && steps[i].text[0] != 'A'
    ensures forall i :: 0 <= i < |Commands(steps)| ==>
      |Commands(steps)[i]| > 0 && Commands(steps)[i][0] != 'A'
    decreases |steps|
  {
    if |steps| > 0 {
      CommandsFirstChars(steps[1..]);
    }
  }

  /** The RCPT TO commands come right after MAIL FROM, one per recipient in
      order (`RcptSteps`), and the plan closes with DATA (expecting 354) and the
      message data (expecting 250). */
  lemma PlanEnvelope(cfg: Config, from: string, rcpts: seq<string>, data: string)
    ensures var plan := Plan(cfg, from, rcpts, data);
      var k := 1 + |TlsSteps(cfg)| + |AuthSteps(cfg)|;
      && |plan| == k + |rcpts| + 3
      && plan[k] == Command(MailFrom(from), 250)
      && plan[k + 1..k + 1 + |rcpts|] == RcptSteps(rcpts)
      && plan[k + 1 + |rcpts|..] == [Command("DATA", 354), Command(data, 250)]
  {
    var head := [Ehlo(cfg)] + TlsSteps(cfg) + AuthSteps(cfg) + [Command(MailFrom(from), 250)];
    PlanAsHead(cfg, from, rcpts, data);
    EnvelopeSlices(Plan(cfg, from, rcpts, data), head, RcptSteps(rcpts), [Command("DATA", 354), Command(data, 250)],
                   1 + |TlsSteps(cfg)| + |AuthSteps(cfg)|, |rcpts|);
  }

  /** The plan as the steps up to MAIL FROM followed by the envelope. */
  lemma PlanAsHead(cfg: Config, from: string, rcpts: seq<string>, data: string)
    ensures var head := [Ehlo(cfg)] + TlsSteps(cfg) + AuthSteps(cfg) + [Command(MailFrom(from), 250)];
      && Plan(cfg, from, rcpts, data) == head + (RcptSteps(rcpts) + [Command("DATA", 354), Command(data, 250)])
      && |head| == 1 + |TlsSteps(cfg)| + |AuthSteps(cfg)| + 1
      && head[|head| - 1] == Command(MailFrom(from), 250)
  {
  }

  /** The three blocks of a concatenation, recovered by slicing. */
  lemma EnvelopeSlices(plan: seq<Step>, head: seq<Step>, r: seq<Step>, close: seq<Step>, k: nat, n: nat)
    requires plan == head + (r + close) && |head| == k + 1 && |r| == n
    ensures |plan| == k + 1 + n + |close|
    ensures plan[k] == head[k]
    ensures plan[k + 1..k + 1 + n] == r
    ensures plan[k + 1 + n..] == close
  {
  }

  /* ---------------------------------------------------------------------- */
  /* A cooperative server                                                     */
  /* ---------------------------------------------------------------------- */

  /** Every expected code is a three-digit number. */
  predicate ThreeDigitCodes(plan: seq<Step>) {
    forall i :: 0 <= i < |plan| && plan[i].Command? ==> 100 <= plan[i].code < 1000
  }

  lemma {:induction false} ThreeDigitCodesTail(p: seq<Step>)
    requires |p| > 0 && ThreeDigitCodes(p)
    ensures ThreeDigitCodes(p[1..])
  {
    var q := p[1..];
    forall i | 0 <= i < |q| && q[i].Command?
      ensures 100 <= q[i].code < 1000
    {
      assert q[i] == p[i + 1];
    }
  }

  lemma ThreeDigitCodesAppend(a: seq<Step>, b: seq<Step>)
    requires ThreeDigitCodes(a) && ThreeDigitCodes(b)
    ensures ThreeDigitCodes(a + b)
  {
    forall i | 0 <= i < |a + b| && (a + b)[i].Command?
      ensures 100 <= (a + b)[i].code < 1000
    {
      if i >= |a| {
        assert (a + b)[i] == b[i - |a|];
      }
    }
  }

  /** Every code the plan expects is a three-digit number. */
  lemma PlanCodes(cfg: Config, from: string, rcpts: seq<string>, data: string)
    ensures ThreeDigitCodes(Plan(cfg, from, rcpts, data))
  {
    var head := [Ehlo(cfg)] + TlsSteps(cfg) + AuthSteps(cfg) + [Command(MailFrom(from), 250)];
    var close := [Command("DATA", 354), Command(data, 250)];
    assert ThreeDigitCodes(head) by {
      ThreeDigitCodesAppend([Ehlo(cfg)], TlsSteps(cfg));
      ThreeDigitCodesAppend([Ehlo(cfg)] + TlsSteps(cfg), AuthSteps(cfg));
      ThreeDigitCodesAppend([Ehlo(cfg)] + TlsSteps(cfg) + AuthSteps(cfg), [Command(MailFrom(from), 250)]);
    }
    ThreeDigitCodesAppend(head, RcptSteps(rcpts));
    ThreeDigitCodesAppend(head + RcptSteps(rcpts), close);
  }

  /** The replies of a server that answers every command with the code it
      expects, as a single line. */
  function NominalReplies(plan: seq<Step>): (r: seq<string>)
    ensures |r| == |Commands(plan)|
    decreases |plan|
  {
    if |plan| == 0 then []
    else (if plan[0].Command? then [Reply.ReplyLine(plan[0].code, "OK")] else []) + NominalReplies(plan[1..])
  }

  /** A reader that accepts a single-line reply carrying the expected code and
      consumes exactly that line. */
  ghost predicate Accepts(read: Reader) {
    forall code: nat, text: string, tail: seq<string> {:trigger read(code, [Reply.ReplyLine(code, text)] + tail)} ::
      100 <= code < 1000 ==> read(code, [Reply.ReplyLine(code, text)] + tail) == Reply.Answer(Reply.Pass, tail)
  }

  /** `smtpGetResponse` is such a reader. */
  lemma ExpectAccepts()
    ensures Accepts(Reply.Expect)
  {
    forall code: nat, text: string, tail: seq<string> | 100 <= code < 1000
      ensures Reply.Expect(code, [Reply.ReplyLine(code, text)] + tail) == Reply.Answer(Reply.Pass, tail)
    {
      Reply.ExpectReplyLine(code, text, tail);
    }
  }

  /** Steps `done` against a server that accepts them all, followed by steps
      `later`: the commands of `done` are sent, one reply each is read, and the
      run goes on with `later` exactly as if it had started there. */
  lemma {:induction false} RunNominalThen(done: seq<Step>, later: seq<Step>, tail: seq<string>, read: Reader)
    requires Accepts(read) && ThreeDigitCodes(done)
    ensures var r2 := Run(later, tail, true, read);
      Run(done + later, NominalReplies(done) + tail, true, read)
        == Progress(Commands(done) + r2.sent, r2.rest, |done| + r2.completed, r2.failure)
    decreases |done|
  {
    if |done| == 0 {
      RunNominalNone(done, later, tail, read);
    } else {
      ThreeDigitCodesTail(done);
      RunNominalThen(done[1..], later, tail, read);
      RunNominalStep(done, later, tail, read);
      CommandsCons(done, Run(later, tail, true, read).sent);
    }
  }

  lemma RunNominalNone(done: seq<Step>, later: seq<Step>, tail: seq<string>, read: Reader)
    requires |done| == 0
    ensures var r2 := Run(later, tail, true, read);
      Run(done + later, NominalReplies(done) + tail, true, read)
        == Progress(Commands(done) + r2.sent, r2.rest, |done| + r2.completed, r2.failure)
  {
    assert done + later == later;
    assert NominalReplies(done) + tail == tail;
    assert Commands(done) + Run(later, tail, true, read).sent == Run(later, tail, true, read).sent;
  }

  lemma CommandsCons(steps: seq<Step>, more: seq<string>)
    requires |steps| > 0
    ensures Commands(steps) + more
      == (if steps[0].Command? then [steps[0].text] else []) + (Commands(steps[1..]) + more)
  {
    var head: seq<string> := if steps[0].Command? then [steps[0].text] else [];
    assert Commands(steps) == head + Commands(steps[1..]);
    ConcatAssoc(head, Commands(steps[1..]), more);
  }

  lemma ConcatAssoc<T>(a: seq<T>, b: seq<T>, c: seq<T>)
    ensures (a + b) + c == a + (b + c)
  {
  }

  /** The first step of `RunNominalThen`: an accepted command is sent and its
      one reply line is read; a handshake step passes without a reply. */
  lemma RunNominalStep(done: seq<Step>, later: seq<Step>, tail: seq<string>, read: Reader)
    requires Accepts(read) && |done| > 0
    requires done[0].Command? ==> 100 <= done[0].code < 1000
    ensures var r1 := Run(done[1..] + later, NominalReplies(done[1..]) + tail, true, read);
      var head := if done[0].Command? then [done[0].text] else [];
      Run(done + later, NominalReplies(done) + tail, true, read)
        == Progress(head + r1.sent, r1.rest, r1.completed + 1, r1.failure)
  {
    if done[0].Command? {
      var next := NominalReplies(done[1..]) + tail;
      assert read(done[0].code, [Reply.ReplyLine(done[0].code, "OK")] + next) == Reply.Answer(Reply.Pass, next);
      RunNominalCommand(done, later, tail, read);
    } else {
      RunNominalHandshake(done, later, tail, read);
    }
  }

  lemma RunNominalCommand(done: seq<Step>, later: seq<Step>, tail: seq<string>, read: Reader)
    requires |done| > 0 && done[0].Command?
    requires var next := NominalReplies(done[1..]) + tail;
      read(done[0].code, [Reply.ReplyLine(done[0].code, "OK")] + next) == Reply.Answer(Reply.Pass, next)
    ensures var r1 := Run(done[1..] + later, NominalReplies(done[1..]) + tail, true, read);
      Run(done + later, NominalReplies(done) + tail, true, read)
        == Progress([done[0].text] + r1.sent, r1.rest, r1.completed + 1, r1.failure)
  {
    var plan := done + later;
    var next := NominalReplies(done[1..]) + tail;
    var line := Reply.ReplyLine(done[0].code, "OK");
    assert plan[0] == done[0] && plan[1..] == done[1..] + later;
    assert NominalReplies(done) + tail == [line] + next;
    RunAfterPass(plan, [line] + next, next, true, read);
  }

  lemma RunNominalHandshake(done: seq<Step>, later: seq<Step>, tail: seq<string>, read: Reader)
    requires |done| > 0 && done[0].EnableTls?
    ensures var r1 := Run(done[1..] + later, NominalReplies(done[1..]) + tail, true, read);
      Run(done + later, NominalReplies(done) + tail, true, read)
        == Progress(r1.sent, r1.rest, r1.completed + 1, r1.failure)
  {
    var plan := done + later;
    assert plan[0] == done[0] && plan[1..] == done[1..] + later;
    assert NominalReplies(done) == [] + NominalReplies(done[1..]);
    assert [] + NominalReplies(done[1..]) == NominalReplies(done[1..]);
  }

  /** The first reply the reader refuses ends the run: every command up to and
      including that one is sent, none after it, and its error is the run's. */
  lemma {:induction false} RunRejectedAt(done: seq<Step>, step: Step, later: seq<Step>,
                                         lines: seq<string>, tail: seq<string>, err: string, read: Reader)
    requires Accepts(read) && ThreeDigitCodes(done) && step.Command?
    requires read(step.code, lines) == Reply.Answer(Reply.Fail(err), tail)
    ensures var r := Run(done + [step] + later, NominalReplies(done) + lines, true, read);
      && r.sent == Commands(done) + [step.text]
      && r.completed == |done|
      && r.failure == Some(err)
      && r.rest == tail
  {
    var rest := [step] + later;
    assert done + [step] + later == done + rest;
    RunNominalThen(done, rest, lines, read);
    RunAfterFail(rest, lines, true, read);
  }

  /** The complete nominal session: the message is accepted, every planned
      command and then QUIT is sent, and whatever the server says to QUIT, the
      verdict stays positive. */
  lemma {:induction false} ConverseNominal(cfg: Config, from: string, rcpts: seq<string>, data: string,
                                          greeting: string, afterQuit: seq<string>)
    ensures var plan := Plan(cfg, from, rcpts, data);
      var server := Server(Opened, true, [Reply.ReplyLine(220, greeting)] + NominalReplies(plan) + afterQuit);
      var s := Converse(cfg, server, from, rcpts, data);
      && s.ok && s.dataAccepted
      && s.sent == Commands(plan) + ["QUIT"]
      && (s.error.None? <==> Reply.Expect(221, afterQuit).outcome.Pass?)
  {
    var plan := Plan(cfg, from, rcpts, data);
    PlanCodes(cfg, from, rcpts, data);
    ExpectAccepts();
    var replies := NominalReplies(plan) + afterQuit;
    var server := Server(Opened, true, [Reply.ReplyLine(220, greeting)] + NominalReplies(plan) + afterQuit);
    assert Reply.Expect(220, server.lines) == Reply.Answer(Reply.Pass, replies) by {
      assert server.lines == [Reply.ReplyLine(220, greeting)] + replies;
      Reply.ExpectReplyLine(220, greeting, replies);
    }
    RunNominalThen(plan, [], afterQuit, Reply.Expect);
    assert plan + [] == plan;
    ConverseAfterGreeting(cfg, server, from, rcpts, data);
  }

  /** A server that accepts the greeting and the first `k` steps and then
      answers step `k` with another code: the session fails, every command up
      to step `k` and none after it is sent, and the error is the mismatch.
      The stored headers change only when the rejected step is the message
      data itself (DATA was accepted). */
  lemma {:induction false} ConverseRejectedAt(cfg: Config, from: string, rcpts: seq<string>, data: string,
                                             greeting: string, k: nat, code: nat, text: string, tail: seq<string>)
    requires k < |Plan(cfg, from, rcpts, data)| && Plan(cfg, from, rcpts, data)[k].Command?
    requires 100 <= code < 1000 && code != Plan(cfg, from, rcpts, data)[k].code
    ensures var plan := Plan(cfg, from, rcpts, data);
      var lines := [Reply.ReplyLine(220, greeting)] + NominalReplies(plan[..k]) + ([Reply.ReplyLine(code, text)] + tail);
      var s := Converse(cfg, Server(Opened, true, lines), from, rcpts, data);
      && !s.ok
      && s.sent == Commands(plan[..k + 1])
      && s.error == Some(Reply.Mismatch(plan[k].code, code, Reply.ReplyLine(code, text)))
      && (s.dataAccepted <==> k == |plan| - 1)
  {
    var plan := Plan(cfg, from, rcpts, data);
    var reject := [Reply.ReplyLine(code, text)] + tail;
    var replies := NominalReplies(plan[..k]) + reject;
    var server := Server(Opened, true, [Reply.ReplyLine(220, greeting)] + NominalReplies(plan[..k]) + reject);
    assert Reply.Expect(220, server.lines) == Reply.Answer(Reply.Pass, replies) by {
      assert server.lines == [Reply.ReplyLine(220, greeting)] + replies;
      Reply.ExpectReplyLine(220, greeting, replies);
    }
    PlanCodes(cfg, from, rcpts, data);
    RunPlanRejectedAt(plan, k, code, text, tail);
    ConverseAfterGreeting(cfg, server, from, rcpts, data);
  }

  /** The run-level half of `ConverseRejectedAt`, stated for any plan whose
      codes are three-digit numbers. */
  lemma {:induction false} RunPlanRejectedAt(plan: seq<Step>, k: nat, code: nat, text: string, tail: seq<string>)
    requires ThreeDigitCodes(plan) && k < |plan| && plan[k].Command?
    requires 100 <= code < 1000 && code != plan[k].code
    ensures var r := Run(plan, NominalReplies(plan[..k]) + ([Reply.ReplyLine(code, text)] + tail), true, Reply.Expect);
      && r.sent == Commands(plan[..k + 1])
      && r.completed == k
      && r.failure == Some(Reply.Mismatch(plan[k].code, code, Reply.ReplyLine(code, text)))
  {
    var done := plan[..k];
    SplitAt(plan, k);
    ExpectAccepts();
    Reply.ExpectWrongCode(plan[k].code, code, text, tail);
    RunRejectedAt(done, plan[k], plan[k + 1..], [Reply.ReplyLine(code, text)] + tail, tail,
                  Reply.Mismatch(plan[k].code, code, Reply.ReplyLine(code, text)), Reply.Expect);
  }

  /** A plan cut before command step `k`: the steps before it keep three-digit
      codes, and the commands up to step `k` are theirs plus its text. */
  lemma SplitAt(plan: seq<Step>, k: nat)
    requires ThreeDigitCodes(plan) && k < |plan| && plan[k].Command?
    ensures ThreeDigitCodes(plan[..k])
    ensures plan == plan[..k] + [plan[k]] + plan[k + 1..]
    ensures Commands(plan[..k + 1]) == Commands(plan[..k]) + [plan[k].text]
  {
    var done := plan[..k];
    assert forall i :: 0 <= i < k ==> done[i] == plan[i];
    assert plan[..k + 1] == done + [plan[k]];
    CommandsAppend(done, [plan[k]]);
  }

  /** With STARTTLS configured and a handshake that fails, after a server that
      accepted the greeting, EHLO and STARTTLS: the session stops with the TLS
      error, before any credential or envelope command goes out. */
  lemma {:induction false} ConverseTlsFailure(cfg: Config, from: string, rcpts: seq<string>, data: string,
                                             greeting: string, tail: seq<string>)
    requires StartTls(cfg)
    ensures var lines := [Reply.ReplyLine(220, greeting), Reply.ReplyLine(250, "OK"), Reply.ReplyLine(220, "OK")] + tail;
      var s := Converse(cfg, Server(Opened, false, lines), from, rcpts, data);
      && !s.ok && !s.dataAccepted
      && s.sent == ["EHLO " + cfg.host, "STARTTLS"]
      && s.error == Some(TlsFailed)
  {
    var replies := [Reply.ReplyLine(250, "OK"), Reply.ReplyLine(220, "OK")] + tail;
    var server := Server(Opened, false, [Reply.ReplyLine(220, greeting)] + replies);
    assert server.lines == [Reply.ReplyLine(220, greeting), Reply.ReplyLine(250, "OK"), Reply.ReplyLine(220, "OK")] + tail;
    Reply.ExpectReplyLine(220, greeting, replies);
    RunTlsFailure(cfg, from, rcpts, data, tail);
    ConverseAfterGreeting(cfg, server, from, rcpts, data);
  }

  /** The run half of `ConverseTlsFailure`. */
  lemma RunTlsFailure(cfg: Config, from: string, rcpts: seq<string>, data: string, tail: seq<string>)
    requires StartTls(cfg)
    ensures var r := Run(Plan(cfg, from, rcpts, data), [Reply.ReplyLine(250, "OK"), Reply.ReplyLine(220, "OK")] + tail,
                         false, Reply.Expect);
      r.sent == ["EHLO " + cfg.host, "STARTTLS"] && r.completed == 2 && r.failure == Some(TlsFailed)
  {
    var plan := Plan(cfg, from, rcpts, data);
    PlanTlsShape(cfg, from, rcpts, data);
    assert [Reply.ReplyLine(250, "OK"), Reply.ReplyLine(220, "OK")] + tail
      == [Reply.ReplyLine(250, "OK")] + ([Reply.ReplyLine(220, "OK")] + tail);
    RunHandshakeFails(Ehlo(cfg), Command("STARTTLS", 220), plan[2..], tail);
  }

  lemma PlanTlsShape(cfg: Config, from: string, rcpts: seq<string>, data: string)
    requires StartTls(cfg)
    ensures var plan := Plan(cfg, from, rcpts, data);
      && |plan| > 2
      && plan == [Ehlo(cfg)] + ([Command("STARTTLS", 220)] + plan[2..])
      && plan[2] == EnableTls
  {
    var plan := Plan(cfg, from, rcpts, data);
    PlanStartTls(cfg, from, rcpts, data);
    assert plan[1..4][0] == plan[1] && plan[1..4][1] == plan[2];
  }

  /** Two accepted commands followed by a failing handshake: the run stops at
      the handshake, with those two commands sent. */
  lemma RunHandshakeFails(a: Step, b: Step, later: seq<Step>, tail: seq<string>)
    requires a.Command? && b.Command? && 100 <= a.code < 1000 && 100 <= b.code < 1000
    requires |later| > 0 && later[0].EnableTls?
    ensures var r := Run([a] + ([b] + later), [Reply.ReplyLine(a.code, "OK")] + ([Reply.ReplyLine(b.code, "OK")] + tail),
                         false, Reply.Expect);
      r.sent == [a.text, b.text] && r.completed == 2 && r.failure == Some(TlsFailed)
  {
    var l1 := [Reply.ReplyLine(b.code, "OK")] + tail;
    assert ([a] + ([b] + later))[1..] == [b] + later;
    RunHandshakeSecond(b, later, tail);
    Reply.ExpectReplyLine(a.code, "OK", l1);
    RunAfterPass([a] + ([b] + later), [Reply.ReplyLine(a.code, "OK")] + l1, l1, false, Reply.Expect);
  }

  lemma RunHandshakeSecond(b: Step, later: seq<Step>, tail: seq<string>)
    requires b.Command? && 100 <= b.code < 1000
    requires |later| > 0 && later[0].EnableTls?
    ensures var r := Run([b] + later, [Reply.ReplyLine(b.code, "OK")] + tail, false, Reply.Expect);
      r.sent == [b.text] && r.completed == 1 && r.failure == Some(TlsFailed)
  {
    assert ([b] + later)[1..] == later;
    assert Run(later, tail, false, Reply.Expect) == Progress([], tail, 0, Some(TlsFailed));
    Reply.ExpectReplyLine(b.code, "OK", tail);
    RunAfterPass([b] + later, [Reply.ReplyLine(b.code, "OK")] + tail, tail, false, Reply.Expect);
  }
}
