/** The `GnzMailer` object (gnzmailer.php:5-122): the message fields its
    setters fill, the stored header list, the last error text, and `send`,
    which refuses an incomplete envelope and otherwise hands the message to
    the SMTP session or to the local `mail()` function.

    A mailer is an immutable value here; every setter returns the updated
    mailer. As in the Smtp module, lemmas about sessions carry
    `{:induction false}` even when they do not recurse, to keep Dafny from
    trying automatic induction over their sequence parameters. */
module Mailer {
  import opened Options
  import opened PhpText
  import Mime
  import Smtp
  import Reply

  /** How `send` delivers: through PHP's `mail()` (the default), or through an
      SMTP server when a configuration was loaded. */
  datatype Transport = LocalMail | Relay(cfg: Smtp.Config)

  datatype Mailer = Mailer(env: Mime.Envelope, error: string, transport: Transport)

  /** The two header lines the constructor stores (lines 32-33). */
  const DefaultHeaders: seq<string> := ["MIME-Version: 1.0", "Content-type: text/html; charset=utf-8"]

  /** The constructor without the configuration file: empty fields, the
      default headers, no error. */
  function New(transport: Transport): (m: Mailer)
    ensures m.env.headers == DefaultHeaders && m.error == "" && m.transport == transport
    ensures m.env.to == [] && m.env.cc == [] && m.env.bcc == [] && m.env.attachments == []
    ensures !Ready(m)
  {
    Mailer(Mime.Envelope("", "", [], [], [], "", "", DefaultHeaders, []), "", transport)
  }

  /* ---------------------------------------------------------------------- */
  /* Setters (lines 66-107)                                                   */
  /* ---------------------------------------------------------------------- */

  /** `setFrom($email, $name)`: the address is sanitized and the display name
      HTML-escaped, so neither can carry a double quote into the From header,
      and the address cannot break out of the angle brackets around it. */
  function SetFrom(m: Mailer, email: string, name: string): (r: Mailer)
    ensures Mime.Unquoted(r.env.fromName) && Mime.Unquoted(r.env.from)
    ensures forall i :: 0 <= i < |r.env.from| ==> Inert(r.env.from[i])
    ensures |r.env.from| <= |email| && |r.env.fromName| >= |name|
    ensures r.env.(from := m.env.from, fromName := m.env.fromName) == m.env
    ensures r.error == m.error && r.transport == m.transport
  {
    SanitizedAddressIsInert(email);
    m.(env := m.env.(from := SanitizeEmail(email), fromName := HtmlEscape(name)))
  }

  function AddTo(m: Mailer, email: string): Mailer {
    m.(env := m.env.(to := m.env.to + [SanitizeEmail(email)]))
  }

  function AddCC(m: Mailer, email: string): Mailer {
    m.(env := m.env.(cc := m.env.cc + [SanitizeEmail(email)]))
  }

  function AddBCC(m: Mailer, email: string): Mailer {
    m.(env := m.env.(bcc := m.env.bcc + [SanitizeEmail(email)]))
  }

  function AddHeader(m: Mailer, header: string): Mailer {
    m.(env := m.env.(headers := m.env.headers + [header]))
  }

  /** `setSubject($subject)`: stored as given (it is escaped only when the
      Subject header is written); nothing else changes. */
  function SetSubject(m: Mailer, subject: string): (r: Mailer)
    ensures r.env.subject == subject
    ensures r.env.(subject := m.env.subject) == m.env && r.error == m.error && r.transport == m.transport
  {
    m.(env := m.env.(subject := subject))
  }

  /** `setBody($body)`: stored as given; nothing else changes. */
  function SetBody(m: Mailer, body: string): (r: Mailer)
    ensures r.env.body == body
    ensures r.env.(body := m.env.body) == m.env && r.error == m.error && r.transport == m.transport
  {
    m.(env := m.env.(body := body))
  }

  /** `addAttachment($path)`: the file is remembered only when it exists at
      that moment; `fileExists` is the answer of `file_exists`. */
  function AddAttachment(m: Mailer, fileExists: bool, a: Mime.Attachment): (r: Mailer)
    ensures fileExists ==> r.env.attachments == m.env.attachments + [a]
    ensures !fileExists ==> r == m
    ensures r.env.(attachments := m.env.attachments) == m.env && r.error == m.error && r.transport == m.transport
  {
    if fileExists then m.(env := m.env.(attachments := m.env.attachments + [a])) else m
  }

  /** With a display name, the From header `send` builds after `setFrom`
      carries exactly one double quote as the program writes it, and two in
      the corrected form. */
  lemma SetFromHeaderQuotes(m: Mailer, email: string, name: string)
    requires Truthy(HtmlEscape(name))
    ensures var r := SetFrom(m, email, name);
      && Mime.Quotes(Mime.FromHeaderAsWritten(r.env.fromName, r.env.from)) == 1
      && Mime.Quotes(Mime.FromHeader(r.env.fromName, r.env.from)) == 2
  {
    var r := SetFrom(m, email, name);
    Mime.FromHeaderAsWrittenUnbalanced(r.env.fromName, r.env.from);
    Mime.FromHeaderBalanced(r.env.fromName, r.env.from);
  }

  /** A fresh mailer given a From address, a To address, a subject and a body
      that are not `empty()` is ready: `send` goes on to deliver it. */
  lemma FilledMailerReady(transport: Transport, email: string, name: string, to: string,
                          subject: string, body: string, w: World)
    requires !Empty(SanitizeEmail(email)) && !Empty(subject) && !Empty(body)
    ensures var m := SetBody(SetSubject(AddTo(SetFrom(New(transport), email, name), to), subject), body);
      && Ready(m)
      && Send(m, w).delivery != Refused
  {
  }

  /** An attachment that exists switches the DATA text to multipart: the
      stored headers are rewritten with the boundary the token makes. */
  lemma AttachmentMakesMultipart(m: Mailer, a: Mime.Attachment, token: string)
    ensures var r := AddAttachment(m, true, a);
      && Mime.Build(r.env, token).headers == Mime.MultipartHeaders(m.env.headers, Mime.Boundary(token))
      && Mime.Build(r.env, token).data
         == Mime.Framed(r.env, Mime.Build(r.env, token).headers,
                        Mime.Multipart(Mime.Boundary(token), m.env.body, m.env.attachments + [a]))
  {
  }

  /* ---------------------------------------------------------------------- */
  /* Building the lists                                                       */
  /* ---------------------------------------------------------------------- */

  /** `addTo` called once per address, in order. */
  function AddAllTo(m: Mailer, emails: seq<string>): Mailer
    decreases |emails|
  {
    if |emails| == 0 then m else AddAllTo(AddTo(m, emails[0]), emails[1..])
  }

  function AddAllCC(m: Mailer, emails: seq<string>): Mailer
    decreases |emails|
  {
    if |emails| == 0 then m else AddAllCC(AddCC(m, emails[0]), emails[1..])
  }

  function AddAllBCC(m: Mailer, emails: seq<string>): Mailer
    decreases |emails|
  {
    if |emails| == 0 then m else AddAllBCC(AddBCC(m, emails[0]), emails[1..])
  }

  function AddAllHeaders(m: Mailer, headers: seq<string>): Mailer
    decreases |headers|
  {
    if |headers| == 0 then m else AddAllHeaders(AddHeader(m, headers[0]), headers[1..])
  }

  /** Every address, sanitized, in the order given. */
  function SanitizeAll(emails: seq<string>): (r: seq<string>)
    ensures |r| == |emails|
    decreases |emails|
  {
    if |emails| == 0 then [] else [SanitizeEmail(emails[0])] + SanitizeAll(emails[1..])
  }

  /** The i-th entry is the i-th address, sanitized. */
  lemma {:induction false} SanitizeAllAt(emails: seq<string>, i: nat)
    requires i < |emails|
    ensures SanitizeAll(emails)[i] == SanitizeEmail(emails[i])
    decreases |emails|
  {
    if i > 0 {
      SanitizeAllAt(emails[1..], i - 1);
    }
  }

  /** Successive `addTo` calls append the sanitized addresses in call order,
      duplicates kept, and touch nothing else. */
  lemma {:induction false} AddAllToAppends(m: Mailer, emails: seq<string>)
    ensures AddAllTo(m, emails) == m.(env := m.env.(to := m.env.to + SanitizeAll(emails)))
    decreases |emails|
  {
    if |emails| > 0 {
      var m1 := AddTo(m, emails[0]);
      var tail := SanitizeAll(emails[1..]);
      assert AddAllTo(m1, emails[1..]) == m1.(env := m1.env.(to := m1.env.to + tail)) by {
        AddAllToAppends(m1, emails[1..]);
      }
      assert m1.env.to + tail == m.env.to + SanitizeAll(emails) by {
        assert SanitizeAll(emails) == [SanitizeEmail(emails[0])] + tail;
      }
    } else {
      assert m.env.to + SanitizeAll(emails) == m.env.to;
    }
  }


  lemma {:induction false} AddAllCCAppends(m: Mailer, emails: seq<string>)
    ensures AddAllCC(m, emails) == m.(env := m.env.(cc := m.env.cc + SanitizeAll(emails)))
    decreases |emails|
  {
    if |emails| > 0 {
      var m1 := AddCC(m, emails[0]);
      var tail := SanitizeAll(emails[1..]);
      assert AddAllCC(m1, emails[1..]) == m1.(env := m1.env.(cc := m1.env.cc + tail)) by {
        AddAllCCAppends(m1, emails[1..]);
      }
      assert m1.env.cc + tail == m.env.cc + SanitizeAll(emails) by {
        assert SanitizeAll(emails) == [SanitizeEmail(emails[0])] + tail;
      }
    } else {
      assert m.env.cc + SanitizeAll(emails) == m.env.cc;
    }
  }


  lemma {:induction false} AddAllBCCAppends(m: Mailer, emails: seq<string>)
    ensures AddAllBCC(m, emails) == m.(env := m.env.(bcc := m.env.bcc + SanitizeAll(emails)))
    decreases |emails|
  {
    if |emails| > 0 {
      var m1 := AddBCC(m, emails[0]);
      var tail := SanitizeAll(emails[1..]);
      assert AddAllBCC(m1, emails[1..]) == m1.(env := m1.env.(bcc := m1.env.bcc + tail)) by {
        AddAllBCCAppends(m1, emails[1..]);
      }
      assert m1.env.bcc + tail == m.env.bcc + SanitizeAll(emails) by {
        assert SanitizeAll(emails) == [SanitizeEmail(emails[0])] + tail;
      }
    } else {
      assert m.env.bcc + SanitizeAll(emails) == m.env.bcc;
    }
  }


  /** Successive `addHeader` calls append the lines verbatim, in call order. */
  lemma {:induction false} AddAllHeadersAppends(m: Mailer, headers: seq<string>)
    ensures AddAllHeaders(m, headers) == m.(env := m.env.(headers := m.env.headers + headers))
    decreases |headers|
  {
    if |headers| > 0 {
      AddAllHeadersAppends(AddHeader(m, headers[0]), headers[1..]);
      assert m.env.headers + [headers[0]] + headers[1..] == m.env.headers + headers;
    } else {
      assert m.env.headers + headers == m.env.headers;
    }
  }

  /** Adding the same address twice keeps both copies. */
  lemma AddToKeepsDuplicates(m: Mailer, email: string)
    ensures var r := AddTo(AddTo(m, email), email);
      && |r.env.to| == |m.env.to| + 2
      && r.env.to[|r.env.to| - 1] == r.env.to[|r.env.to| - 2] == SanitizeEmail(email)
  {
  }

  /** A sanitized recipient list holds no character that could break out of
      "RCPT TO:<...>". */
  lemma {:induction false} SanitizeAllInert(emails: seq<string>)
    ensures forall i, k :: 0 <= i < |emails| && 0 <= k < |SanitizeAll(emails)[i]| ==>
      Inert(SanitizeAll(emails)[i][k])
  {
    forall i | 0 <= i < |emails|
      ensures forall k :: 0 <= k < |SanitizeAll(emails)[i]| ==> Inert(SanitizeAll(emails)[i][k])
    {
      SanitizeAllAt(emails, i);
      SanitizedAddressIsInert(emails[i]);
    }
  }

  /* ---------------------------------------------------------------------- */
  /* send (lines 109-122)                                                     */
  /* ---------------------------------------------------------------------- */

  /** The condition `send` checks first: at least one To address, and a From
      address, subject and body that are not `empty()`. */
  predicate Ready(m: Mailer) {
    |m.env.to| > 0 && !Empty(m.env.from) && !Empty(m.env.subject) && !Empty(m.env.body)
  }

  const MissingData: string := "Faltan datos para el envío (To, From, Subject, Body)."
  const MailFailed: string := "Falló el envío del correo a través de la función mail()."
  const MailWithAttachmentsFailed: string := "Falló el envío del correo con adjuntos a través de la función mail()."

  /** Every RCPT TO address in the order `sendSmtp` walks them: To, then Cc,
      then Bcc. */
  function Recipients(e: Mime.Envelope): (r: seq<string>)
    ensures |r| == |e.to| + |e.cc| + |e.bcc|
  {
    e.to + e.cc + e.bcc
  }

  /** What happened to the message: refused before any delivery, handed to
      `mail()`, or an SMTP session. */
  datatype Delivery = Refused | Handed | Session(session: Smtp.Session)

  /** The verdict `send` returns and the mailer as it stands afterwards. */
  datatype Sent = Sent(ok: bool, mailer: Mailer, delivery: Delivery)

  /** The world one `send` call meets: the SMTP server, the hash that makes the
      boundary, and whether `mail()` accepts the message. */
  datatype World = World(server: Smtp.Server, token: string, mailAccepted: bool)

  /** `send()`: an incomplete envelope is refused before any delivery;
      otherwise the configured transport takes the message. */
  function Send(m: Mailer, w: World): (r: Sent)
    ensures !Ready(m) ==> r == Sent(false, m.(error := MissingData), Refused)
    ensures Ready(m) && m.transport.LocalMail? ==>
      r.delivery == Handed && r.ok == w.mailAccepted && r.mailer.env == m.env
      && (r.ok ==> r.mailer.error == m.error)
      && (!r.ok ==> r.mailer.error == (if |m.env.attachments| == 0 then MailFailed else MailWithAttachmentsFailed))
    ensures Ready(m) && m.transport.Relay? ==>
      && r.delivery.Session?
      && r.ok == r.delivery.session.ok
      && r.mailer.error == (if r.delivery.session.error.Some? then r.delivery.session.error.value else m.error)
      && r.mailer.env.headers == (if r.delivery.session.dataAccepted then Mime.Build(m.env, w.token).headers else m.env.headers)
      && r.mailer.env.(headers := m.env.headers) == m.env
  {
    if !Ready(m) then Sent(false, m.(error := MissingData), Refused)
    else match m.transport
      case LocalMail => SendMail(m, w.mailAccepted)
      case Relay(cfg) => SendSmtp(m, cfg, w.server, w.token)
  }

  /** `sendMail()`: the verdict of `mail()`, and on refusal the error text for
      a message with or without attachments. Nothing else changes. */
  function SendMail(m: Mailer, accepted: bool): (r: Sent)
    ensures r.delivery == Handed && r.ok == accepted && r.mailer.env == m.env && r.mailer.transport == m.transport
    ensures accepted ==> r.mailer.error == m.error
    ensures !accepted ==> r.mailer.error == (if |m.env.attachments| == 0 then MailFailed else MailWithAttachmentsFailed)
  {
    if accepted then Sent(true, m, Handed)
    else Sent(false, m.(error := if |m.env.attachments| == 0 then MailFailed else MailWithAttachmentsFailed), Handed)
  }

  /** `sendSmtp()` on the mailer. The DATA text is built from the fields before
      the session starts; the program builds it after DATA is accepted, which
      reads the same fields, and stores the rewritten header list at that
      moment, so the stored headers change only when DATA was accepted. The
      session's error, if any, replaces the mailer's. */
  function SendSmtp(m: Mailer, cfg: Smtp.Config, server: Smtp.Server, token: string): (r: Sent)
    ensures r.delivery.Session? && r.ok == r.delivery.session.ok
    ensures r.delivery.session.target == Smtp.Target(cfg) && r.delivery.session.port == cfg.port
    ensures var built := Mime.Build(m.env, token);
      var planned := Smtp.Commands(Smtp.Plan(cfg, m.env.from, m.env.to + m.env.cc + m.env.bcc, built.data));
      var s := r.delivery.session;
      && (r.ok ==> s.sent == planned + ["QUIT"] && r.mailer.env.headers == built.headers)
      && (!r.ok ==> s.error.Some? && r.mailer.error == s.error.value
                    && |s.sent| <= |planned| && s.sent == planned[..|s.sent|])
      && (!s.dataAccepted ==> r.mailer.env.headers == m.env.headers)
      && (s.dataAccepted ==> r.mailer.env.headers == built.headers)
    ensures r.delivery.session.error.None? ==> r.mailer.error == m.error
    ensures r.delivery.session.error.Some? ==> r.mailer.error == r.delivery.session.error.value
    ensures server.connect.Refused? ==>
      && !r.ok && r.delivery.session.sent == []
      && r.mailer.error == IntString(server.connect.errno) + " - " + server.connect.errstr
    ensures r.mailer.env.(headers := m.env.headers) == m.env
    ensures r.mailer.transport == m.transport
  {
    var built := Mime.Build(m.env, token);
    var s := Smtp.Converse(cfg, server, m.env.from, Recipients(m.env), built.data);
    var headers := if s.dataAccepted then built.headers else m.env.headers;
    var error := if s.error.Some? then s.error.value else m.error;
    Sent(s.ok, Mailer(m.env.(headers := headers), error, m.transport), Session(s))
  }

  /* ---------------------------------------------------------------------- */
  /* Properties of send                                                       */
  /* ---------------------------------------------------------------------- */

  /** An incomplete envelope is refused whatever the transport and the world:
      false, the "Faltan datos" error, no connection and no command. */
  lemma SendRefusesIncomplete(m: Mailer, w: World)
    requires |m.env.to| == 0 || Empty(m.env.from) || Empty(m.env.subject) || Empty(m.env.body)
    ensures !Send(m, w).ok
    ensures Send(m, w).mailer.error == MissingData
    ensures Send(m, w).delivery == Refused
  {
  }

  /** A fresh mailer refuses to send until To, From, Subject and Body are all set. */
  lemma FreshMailerRefuses(transport: Transport, w: World)
    ensures Send(New(transport), w) == Sent(false, New(transport).(error := MissingData), Refused)
  {
  }

  /** Over SMTP a successful send has issued exactly the planned commands,
      with one RCPT TO per To, Cc and Bcc address in that order, then QUIT. */
  lemma {:induction false} SendSmtpTranscript(m: Mailer, w: World)
    requires Ready(m) && m.transport.Relay? && Send(m, w).ok
    ensures var cfg := m.transport.cfg;
      var data := Mime.Build(m.env, w.token).data;
      Send(m, w).delivery.session.sent
        == Smtp.Commands(Smtp.Plan(cfg, m.env.from, m.env.to + m.env.cc + m.env.bcc, data)) + ["QUIT"]
  {
  }

  /** An SMTP server that accepts everything gets the whole conversation, and
      the mailer reports success. With attachments the stored headers are
      rewritten to the multipart form. */
  lemma {:induction false} SendSmtpNominal(m: Mailer, token: string, greeting: string, afterQuit: seq<string>)
    requires Ready(m) && m.transport.Relay?
    ensures var cfg := m.transport.cfg;
      var data := Mime.Build(m.env, token).data;
      var plan := Smtp.Plan(cfg, m.env.from, Recipients(m.env), data);
      var server := Smtp.Server(Smtp.Opened, true,
                                [Reply.ReplyLine(220, greeting)] + Smtp.NominalReplies(plan) + afterQuit);
      var r := Send(m, World(server, token, false));
      && r.ok
      && r.delivery.session.sent == Smtp.Commands(plan) + ["QUIT"]
      && r.mailer.env.headers == Mime.Build(m.env, token).headers
  {
    var cfg := m.transport.cfg;
    var data := Mime.Build(m.env, token).data;
    Smtp.ConverseNominal(cfg, m.env.from, Recipients(m.env), data, greeting, afterQuit);
  }

  /** An SMTP server that accepts the first `k` steps and answers step `k`
      with another code: `send` returns false with the mismatch as the error,
      and the stored headers are rewritten only when the rejected step is the
      message data, the one step that follows an accepted DATA. */
  lemma {:induction false} SendSmtpRejectedAt(m: Mailer, token: string, greeting: string,
                                             k: nat, code: nat, text: string, tail: seq<string>)
    requires Ready(m) && m.transport.Relay?
    requires var plan := Smtp.Plan(m.transport.cfg, m.env.from, Recipients(m.env), Mime.Build(m.env, token).data);
      k < |plan| && plan[k].Command? && 100 <= code < 1000 && code != plan[k].code
    ensures var built := Mime.Build(m.env, token);
      var plan := Smtp.Plan(m.transport.cfg, m.env.from, Recipients(m.env), built.data);
      var lines := [Reply.ReplyLine(220, greeting)] + Smtp.NominalReplies(plan[..k]) + ([Reply.ReplyLine(code, text)] + tail);
      var r := Send(m, World(Smtp.Server(Smtp.Opened, true, lines), token, false));
      && !r.ok
      && r.mailer.error == Reply.Mismatch(plan[k].code, code, Reply.ReplyLine(code, text))
      && r.delivery.session.sent == Smtp.Commands(plan[..k + 1])
      && r.mailer.env.headers == (if k == |plan| - 1 then built.headers else m.env.headers)
  {
    var data := Mime.Build(m.env, token).data;
    Smtp.ConverseRejectedAt(m.transport.cfg, m.env.from, Recipients(m.env), data, greeting, k, code, text, tail);
  }
}
