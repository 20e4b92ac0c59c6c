/** Worked examples: concrete configurations and server scripts, with the
    commands the session sends and the verdict it reaches. */
module Scenarios {
  import opened Options
  import Base64
  import Reply
  import Smtp
  import PhpText

  /** A submission server on port 587 with STARTTLS and a login. */
  const Submission: Smtp.Config := Smtp.Config("smtp.example.com", 587, "alice", "secret", "tls")

  /** A relay on port 25 without encryption or login. */
  const OpenRelay: Smtp.Config := Smtp.Config("mx.example.com", 25, "", "", "")

  /** Five bytes: one full group and a final pair. */
  lemma EncodeFive(bs: seq<Base64.byte>)
    requires |bs| == 5
    ensures Base64.Encode(bs) == Base64.Group(bs[0], bs[1], bs[2]) + Base64.PadOne(bs[3], bs[4])
  {
    assert bs[3..][0] == bs[3] && bs[3..][1] == bs[4];
  }

  /** Six bytes: two full groups. */
  lemma EncodeSix(bs: seq<Base64.byte>)
    requires |bs| == 6
    ensures Base64.Encode(bs) == Base64.Group(bs[0], bs[1], bs[2]) + Base64.Group(bs[3], bs[4], bs[5])
  {
    var rest := bs[3..];
    assert rest[0] == bs[3] && rest[1] == bs[4] && rest[2] == bs[5];
    assert Base64.Encode(rest) == Base64.Group(bs[3], bs[4], bs[5]) + Base64.Encode(rest[3..]);
    assert rest[3..] == [];
  }

  lemma Latin1Alice()
    ensures Base64.Latin1("alice") == [97, 108, 105, 99, 101]
  {
  }

  lemma Latin1Secret()
    ensures Base64.Latin1("secret") == [115, 101, 99, 114, 101, 116]
  {
  }

  /** `base64_encode("alice")`. */
  lemma EncodeAlice()
    ensures Base64.Encode(Base64.Latin1("alice")) == "YWxpY2U="
  {
    Latin1Alice();
    EncodeFive([97, 108, 105, 99, 101]);
    GroupAli();
    PadCe();
  }

  lemma GroupAli()
    ensures Base64.Group(97, 108, 105) == "YWxp"
  {
    assert Base64.CharOf(24) == 'Y' && Base64.CharOf(22) == 'W';
    assert Base64.CharOf(49) == 'x' && Base64.CharOf(41) == 'p';
  }

  lemma PadCe()
    ensures Base64.PadOne(99, 101) == "Y2U="
  {
    assert Base64.CharOf(24) == 'Y' && Base64.CharOf(54) == '2' && Base64.CharOf(20) == 'U';
  }

  /** `base64_encode("secret")`. */
  lemma EncodeSecret()
    ensures Base64.Encode(Base64.Latin1("secret")) == "c2VjcmV0"
  {
    Latin1Secret();
    EncodeSix([115, 101, 99, 114, 101, 116]);
    GroupSec();
    GroupRet();
  }

  lemma GroupSec()
    ensures Base64.Group(115, 101, 99) == "c2Vj"
  {
    assert Base64.CharOf(28) == 'c' && Base64.CharOf(54) == '2';
    assert Base64.CharOf(21) == 'V' && Base64.CharOf(35) == 'j';
  }

  lemma GroupRet()
    ensures Base64.Group(114, 101, 116) == "cmV0"
  {
    assert Base64.CharOf(28) == 'c' && Base64.CharOf(38) == 'm';
    assert Base64.CharOf(21) == 'V' && Base64.CharOf(52) == '0';
  }

  /** The credentials go out as the base64 texts of "alice" and "secret". */
  lemma SubmissionCredentials()
    ensures Smtp.AuthSteps(Submission)
      == [Smtp.Command("AUTH LOGIN", 334), Smtp.Command("YWxpY2U=", 334), Smtp.Command("c2VjcmV0", 235)]
  {
    EncodeAlice();
    EncodeSecret();
  }

  /** The commands of one or two steps. */
  lemma CommandsOfOne(t: string, c: nat)
    ensures Smtp.Commands([Smtp.Command(t, c)]) == [t]
  {
    assert [Smtp.Command(t, c)][1..] == [];
  }

  lemma CommandsOfTwo(t: string, c: nat, u: string, d: nat)
    ensures Smtp.Commands([Smtp.Command(t, c), Smtp.Command(u, d)]) == [t, u]
  {
    assert [Smtp.Command(t, c), Smtp.Command(u, d)][1..] == [Smtp.Command(u, d)];
    CommandsOfOne(u, d);
  }

  /** The commands of a plan, segment by segment. */
  lemma PlanCommands(cfg: Smtp.Config, from: string, rcpts: seq<string>, data: string)
    ensures Smtp.Commands(Smtp.Plan(cfg, from, rcpts, data))
      == ["EHLO " + cfg.host] + Smtp.Commands(Smtp.TlsSteps(cfg)) + Smtp.Commands(Smtp.AuthSteps(cfg))
         + [Smtp.MailFrom(from)] + Smtp.Commands(Smtp.RcptSteps(rcpts)) + ["DATA", data]
  {
    var ehlo := [Smtp.Ehlo(cfg)];
    var tls := Smtp.TlsSteps(cfg);
    var auth := Smtp.AuthSteps(cfg);
    var mail := [Smtp.Command(Smtp.MailFrom(from), 250)];
    var rcpt := Smtp.RcptSteps(rcpts);
    var close := [Smtp.Command("DATA", 354), Smtp.Command(data, 250)];
    CommandsOfOne("EHLO " + cfg.host, 250);
    CommandsOfOne(Smtp.MailFrom(from), 250);
    CommandsOfTwo("DATA", 354, data, 250);
    Smtp.CommandsAppend(ehlo, tls);
    Smtp.CommandsAppend(ehlo + tls, auth);
    Smtp.CommandsAppend(ehlo + tls + auth, mail);
    Smtp.CommandsAppend(ehlo + tls + auth + mail, rcpt);
    Smtp.CommandsAppend(ehlo + tls + auth + mail + rcpt, close);
  }

  lemma SubmissionEhlo()
    ensures "EHLO " + Submission.host == "EHLO smtp.example.com"
  {
  }

  lemma SubmissionTls()
    ensures Smtp.Commands(Smtp.TlsSteps(Submission)) == ["STARTTLS", "EHLO smtp.example.com"]
  {
    var tls := Smtp.TlsSteps(Submission);
    SubmissionEhlo();
    assert tls == [Smtp.Command("STARTTLS", 220), Smtp.EnableTls, Smtp.Command("EHLO smtp.example.com", 250)];
    assert tls[1..][1..] == [Smtp.Command("EHLO smtp.example.com", 250)];
    CommandsOfOne("EHLO smtp.example.com", 250);
  }

  lemma SubmissionAuth()
    ensures Smtp.Commands(Smtp.AuthSteps(Submission)) == ["AUTH LOGIN", "YWxpY2U=", "c2VjcmV0"]
  {
    SubmissionCredentials();
    var auth := Smtp.AuthSteps(Submission);
    assert auth[1..] == [Smtp.Command("YWxpY2U=", 334), Smtp.Command("c2VjcmV0", 235)];
    CommandsOfTwo("YWxpY2U=", 334, "c2VjcmV0", 235);
  }

  lemma RcptOne(x: string)
    ensures Smtp.Commands(Smtp.RcptSteps([x])) == [Smtp.RcptTo(x)]
  {
    assert Smtp.RcptSteps([x]) == [Smtp.Command(Smtp.RcptTo(x), 250)];
    CommandsOfOne(Smtp.RcptTo(x), 250);
  }

  lemma RcptTwo(x: string, y: string)
    ensures Smtp.Commands(Smtp.RcptSteps([x, y])) == [Smtp.RcptTo(x), Smtp.RcptTo(y)]
  {
    var r := Smtp.RcptSteps([x, y]);
    assert r == [Smtp.Command(Smtp.RcptTo(x), 250), Smtp.Command(Smtp.RcptTo(y), 250)] by {
      assert r[0] == Smtp.Command(Smtp.RcptTo(x), 250) && r[1] == Smtp.Command(Smtp.RcptTo(y), 250);
    }
    CommandsOfTwo(Smtp.RcptTo(x), 250, Smtp.RcptTo(y), 250);
  }

  /** The full command list of the submission example, in order. */
  lemma SubmissionCommands(data: string)
    ensures Smtp.Commands(Smtp.Plan(Submission, "a@example.com", ["b@example.org"], data))
      == ["EHLO smtp.example.com", "STARTTLS", "EHLO smtp.example.com",
          "AUTH LOGIN", "YWxpY2U=", "c2VjcmV0",
          "MAIL FROM:<a@example.com>", "RCPT TO:<b@example.org>", "DATA", data]
  {
    PlanCommands(Submission, "a@example.com", ["b@example.org"], data);
    SubmissionTls();
    SubmissionAuth();
    RcptOne("b@example.org");
    SubmissionEhlo();
    MailFromA();
    RcptToB();
    RcptToC();
    JoinSix("EHLO smtp.example.com", ["STARTTLS", "EHLO smtp.example.com"], ["AUTH LOGIN", "YWxpY2U=", "c2VjcmV0"],
            "MAIL FROM:<a@example.com>", ["RCPT TO:<b@example.org>"], ["DATA", data]);
  }

  /** The segments of a command list joined into one list. */
  lemma JoinSix(ehlo: string, tls: seq<string>, auth: seq<string>, mail: string, rcpt: seq<string>, close: seq<string>)
    ensures [ehlo] + tls + auth + [mail] + rcpt + close == [ehlo] + (tls + (auth + ([mail] + (rcpt + close))))
  {
  }

  lemma MailFromA()
    ensures Smtp.MailFrom("a@example.com") == "MAIL FROM:<a@example.com>"
  {
  }

  lemma RcptToB()
    ensures Smtp.RcptTo("b@example.org") == "RCPT TO:<b@example.org>"
  {
  }

  lemma RcptToC()
    ensures Smtp.RcptTo("c@example.org") == "RCPT TO:<c@example.org>"
  {
  }

  lemma OpenRelayEhlo()
    ensures "EHLO " + OpenRelay.host == "EHLO mx.example.com"
    ensures Smtp.TlsSteps(OpenRelay) == [] && Smtp.AuthSteps(OpenRelay) == []
  {
  }

  /** Without encryption or login there is neither STARTTLS nor AUTH, and the
      host is dialled as it is. */
  lemma OpenRelayCommands(data: string)
    ensures Smtp.Target(OpenRelay) == "mx.example.com"
    ensures Smtp.Commands(Smtp.Plan(OpenRelay, "a@example.com", ["b@example.org", "c@example.org"], data))
      == ["EHLO mx.example.com", "MAIL FROM:<a@example.com>",
          "RCPT TO:<b@example.org>", "RCPT TO:<c@example.org>", "DATA", data]
  {
    PlanCommands(OpenRelay, "a@example.com", ["b@example.org", "c@example.org"], data);
    RcptTwo("b@example.org", "c@example.org");
    OpenRelayEhlo();
    MailFromA();
    RcptToB();
    RcptToC();
    assert Smtp.Commands([]) == [];
  }

  /** A multi-line EHLO reply is read to its last line and passes; the next
      reply is left for the next command. */
  lemma MultiLineEhlo()
    ensures Reply.Expect(250, ["250-mx.example.com\r\n", "250-SIZE 1000\r\n", "250 OK\r\n", "221 Bye\r\n"])
      == Reply.Answer(Reply.Pass, ["221 Bye\r\n"])
  {
    var lines := ["250-mx.example.com\r\n", "250-SIZE 1000\r\n", "250 OK\r\n", "221 Bye\r\n"];
    assert !Reply.Stops(lines[0]);
    assert lines[1..][0] == "250-SIZE 1000\r\n" && !Reply.Stops(lines[1..][0]);
    assert lines[1..][1..][0] == "250 OK\r\n" && Reply.IsLastLine(lines[1..][1..][0]);
    assert Reply.Read(lines[1..][1..]) == Reply.Reading("250 OK\r\n", 1);
    assert Reply.Read(lines[1..]).consumed == 2;
    var r := Reply.Read(lines);
    assert r.consumed == 3 && r.text[..3] == lines[0][..3] == "250";
    ThreeCodes();
    PhpText.IntCastDecimal(250);
    assert lines[3..] == ["221 Bye\r\n"];
  }

  /** `DecimalString` on the two codes the examples quote. */
  lemma ThreeCodes()
    ensures PhpText.DecimalString(250) == "250" && PhpText.DecimalString(550) == "550"
  {
    assert PhpText.DecimalString(25) == "25" by {
      assert PhpText.DecimalString(2) == "2";
    }
    assert PhpText.DecimalString(55) == "55" by {
      assert PhpText.DecimalString(5) == "5";
    }
  }

  /** A refused recipient yields the mismatch text word for word. */
  lemma RefusedRecipient()
    ensures Reply.Expect(250, ["550 No such user\r\n"])
      == Reply.Answer(Reply.Fail("Expected code 250, got 550. Response: 550 No such user\r\n"), [])
  {
    RefusedRecipientText();
    assert [Reply.ReplyLine(550, "No such user")] + [] == ["550 No such user\r\n"];
    Reply.ExpectWrongCode(250, 550, "No such user", []);
  }

  lemma RefusedRecipientText()
    ensures Reply.ReplyLine(550, "No such user") == "550 No such user\r\n"
    ensures Reply.Mismatch(250, 550, "550 No such user\r\n")
      == "Expected code 250, got 550. Response: 550 No such user\r\n"
  {
    RefusedLine();
    MismatchPrefix("550 No such user\r\n");
  }

  lemma RefusedLine()
    ensures Reply.ReplyLine(550, "No such user") == "550 No such user\r\n"
  {
    ThreeCodes();
  }

  lemma MismatchPrefix(response: string)
    ensures Reply.Mismatch(250, 550, response) == "Expected code 250, got 550. Response: " + response
  {
    ThreeCodes();
    var p := "Expected code 250, got 550. Response: ";
    assert "Expected code " + "250" + ", got " + "550" + ". Response: " == p;
  }
}
