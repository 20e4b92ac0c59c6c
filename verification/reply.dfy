/** Reading one SMTP reply (`smtpGetResponse`, gnzmailer.php:299-316).

    The socket is replaced by the sequence of strings successive `fgets` calls
    return. Lines are gathered until one has a space as its fourth character, a
    falsy string comes back, or the input runs out (the multi-line reply form
    of section 4.2 of RFC 5321). The reply code is the integer at the start of
    the gathered text, that is, of its first line. */
module Reply {
  import opened PhpText

  /** A line that ends a reply: `substr($str, 3, 1) == " "`. */
  predicate IsLastLine(line: string) {
    |line| >= 4 && line[3] == ' '
  }

  /** The reading loop ends after this line: either the loop condition saw a
      falsy string, or the line is a last line. */
  predicate Stops(line: string) {
    !Truthy(line) || IsLastLine(line)
  }

  /** What one reply read produced: the gathered text and how many lines it took. */
  datatype Reading = Reading(text: string, consumed: nat)

  /** How many of the first `n` lines were appended to the text: a falsy line
      ends the loop without being appended. */
  function Appended(lines: seq<string>, n: nat): nat
    requires n <= |lines|
  {
    if n > 0 && !Truthy(lines[n - 1]) then n - 1 else n
  }

  /** The `while ($str = fgets(...))` loop. */
  function Read(lines: seq<string>): (r: Reading)
    ensures r.consumed <= |lines|
    ensures |lines| > 0 ==> r.consumed > 0
    ensures r.consumed == |lines| || (0 < r.consumed && Stops(lines[r.consumed - 1]))
    decreases |lines|
  {
    if |lines| == 0 then Reading("", 0)
    else if !Truthy(lines[0]) then Reading("", 1)
    else if IsLastLine(lines[0]) then Reading(lines[0], 1)
    else
      var r := Read(lines[1..]);
      Reading(lines[0] + r.text, r.consumed + 1)
  }

  /** What the loop reads: it stops at the first line that ends a reply (or at
      the end of the input), never before, and the text is every line it took
      except a falsy one. */
  lemma {:induction false} ReadStops(lines: seq<string>)
    ensures var r := Read(lines);
      && (forall i :: 0 <= i < r.consumed - 1 ==> !Stops(lines[i]))
      && (r.consumed == |lines| || (0 < r.consumed && Stops(lines[r.consumed - 1])))
      && r.text == Concat(lines[..Appended(lines, r.consumed)])
    decreases |lines|
  {
    if |lines| > 0 && Truthy(lines[0]) && !IsLastLine(lines[0]) {
      ReadStops(lines[1..]);
      var r := Read(lines[1..]);
      assert forall i :: 1 <= i < r.consumed + 1 ==> lines[i] == lines[1..][i - 1];
      assert lines[..Appended(lines, r.consumed + 1)][1..] == lines[1..][..Appended(lines[1..], r.consumed)];
    } else if |lines| > 0 && !Truthy(lines[0]) {
      assert lines[..0] == [];
    } else if |lines| > 0 {
      assert lines[..1] == [lines[0]];
    }
  }

  /** `(int)substr($response, 0, 3)`. */
  function CodeOf(text: string): int {
    IntCast(text[..if |text| < 3 then |text| else 3])
  }

  /** The error text a mismatching reply leaves behind. */
  function Mismatch(expected: int, code: int, response: string): string {
    "Expected code " + IntString(expected) + ", got " + IntString(code) + ". Response: " + response
  }

  /** How one reply was judged: its code was the expected one, or it was not
      and the error text says so. */
  datatype Outcome = Pass | Fail(error: string)

  lemma MismatchOpens(expected: int, code: int, response: string)
    ensures StartsWith(Mismatch(expected, code, response), "Expected code " + IntString(expected) + ", got ")
  {
    var p := "Expected code " + IntString(expected) + ", got ";
    assert Mismatch(expected, code, response) == p + (IntString(code) + ". Response: " + response);
  }

  /** The verdict on one reply and the lines left for the next one. */
  datatype Answer = Answer(outcome: Outcome, rest: seq<string>)

  /** `smtpGetResponse($expected)`: read one reply and compare its code. */
  function Expect(expected: int, lines: seq<string>): (a: Answer)
    ensures |a.rest| <= |lines| && a.rest == lines[|lines| - |a.rest|..]
    ensures |lines| > 0 ==> |a.rest| < |lines|
    ensures a.outcome.Pass? <==> CodeOf(Read(lines).text) == expected
    ensures a.outcome.Fail? ==> StartsWith(a.outcome.error, "Expected code " + IntString(expected) + ", got ")
    ensures a.outcome.Fail? ==> a.outcome.error == Mismatch(expected, CodeOf(Read(lines).text), Read(lines).text)
  {
    var r := Read(lines);
    var code := CodeOf(r.text);
    MismatchOpens(expected, code, r.text);
    if code != expected then Answer(Fail(Mismatch(expected, code, r.text)), lines[r.consumed..])
    else Answer(Pass, lines[r.consumed..])
  }

  /* ---------------------------------------------------------------------- */
  /* Properties                                                               */
  /* ---------------------------------------------------------------------- */

  /** A well-formed single-line reply: three digits, a space, text, CRLF. */
  function ReplyLine(code: nat, text: string): string {
    DecimalString(code) + " " + text + CRLF
  }

  /** A single-line reply carrying the expected code passes and takes exactly
      that one line. */
  lemma ExpectReplyLine(expected: nat, text: string, tail: seq<string>)
    requires 100 <= expected < 1000
    ensures Expect(expected, [ReplyLine(expected, text)] + tail) == Answer(Pass, tail)
  {
    var line := ReplyLine(expected, text);
    DecimalStringThreeDigits(expected);
    assert line[..3] == DecimalString(expected);
    assert IsLastLine(line);
    var lines := [line] + tail;
    assert lines[..1] == [line];
    assert Read(lines) == Reading(line, 1);
    IntCastDecimal(expected);
    assert lines[1..] == tail;
  }

  /** A single-line reply with another code fails, and the error text names both
      codes and quotes the line. */
  lemma ExpectWrongCode(expected: int, code: nat, text: string, tail: seq<string>)
    requires 100 <= code < 1000 && code != expected
    ensures Expect(expected, [ReplyLine(code, text)] + tail)
      == Answer(Fail(Mismatch(expected, code, ReplyLine(code, text))), tail)
  {
    var line := ReplyLine(code, text);
    DecimalStringThreeDigits(code);
    assert line[..3] == DecimalString(code);
    var lines := [line] + tail;
    assert lines[..1] == [line];
    assert Read(lines) == Reading(line, 1);
    IntCastDecimal(code);
    assert lines[1..] == tail;
  }

  /** The code of a multi-line reply is read from its FIRST line (the first
      three characters of the gathered text), whatever the later lines say. */
  lemma {:induction false} CodeFromFirstLine(lines: seq<string>)
    requires |lines| > 0 && Truthy(lines[0]) && |lines[0]| >= 3
    ensures CodeOf(Read(lines).text) == IntCast(lines[0][..3])
  {
    var r := Read(lines);
    ReadStops(lines);
    assert Appended(lines, r.consumed) >= 1;
    assert lines[..Appended(lines, r.consumed)][0] == lines[0];
    assert r.text[..3] == lines[0][..3];
  }

  /** A continuation line ("250-...") followed by a last line ("550 ...") reads
      as ONE reply with code 250: the later code is not looked at. */
  lemma ContinuationDecidesCode()
    ensures Read(["250-first\r\n", "550 second\r\n", "221 later\r\n"]).consumed == 2
    ensures Expect(250, ["250-first\r\n", "550 second\r\n", "221 later\r\n"])
      == Answer(Pass, ["221 later\r\n"])
  {
    var lines := ["250-first\r\n", "550 second\r\n", "221 later\r\n"];
    assert !Stops(lines[0]);
    assert lines[1..][0] == "550 second\r\n";
    assert IsLastLine(lines[1..][0]);
    assert Read(lines[1..]) == Reading("550 second\r\n", 1);
    var r := Read(lines);
    assert r == Reading("250-first\r\n" + "550 second\r\n", 2);
    assert r.text[..3] == "250" == DecimalString(250);
    IntCastDecimal(250);
    assert lines[2..] == ["221 later\r\n"];
  }

  /** A last line that is the bare code ("250" CRLF, which the reply grammar
      of section 4.2 of RFC 5321 allows) has no space as its fourth character,
      so the loop reads on and takes the next reply as part of this one. */
  lemma CodeOnlyLineReadsOn()
    ensures Read(["250\r\n", "354 go\r\n"]).consumed == 2
    ensures Expect(250, ["250\r\n", "354 go\r\n"]) == Answer(Pass, [])
  {
    var lines := ["250\r\n", "354 go\r\n"];
    assert !Stops(lines[0]);
    assert lines[1..][0] == "354 go\r\n";
    assert IsLastLine(lines[1..][0]);
    assert Read(lines[1..]) == Reading("354 go\r\n", 1);
    var r := Read(lines);
    assert r == Reading("250\r\n" + "354 go\r\n", 2);
    assert r.text[..3] == "250" == DecimalString(250);
    IntCastDecimal(250);
    assert lines[2..] == [];
  }

  /** With no reply at all the code reads as 0 and any expectation fails. */
  lemma SilentServer(expected: int)
    requires expected != 0
    ensures Expect(expected, []) == Answer(Fail(Mismatch(expected, 0, "")), [])
  {
    assert IntCast("") == 0;
  }
}
