/** The message text `sendSmtp` hands to the server after DATA
    (gnzmailer.php:224-261): the header block, a blank line, the body or a
    multipart/mixed payload (section 5.1.1 of RFC 2046) with base64 attachments,
    and the "." that ends the data. The boundary's random part (`md5(time())` in
    the program) is a parameter. */
module Mime {
  import opened Options
  import opened PhpText
  import opened Base64

  /** A file to attach: its base name and its bytes as read when the message is
      built. `content` is None when the file can no longer be read at that
      moment: `file_get_contents` then yields false, which `base64_encode` turns
      into "", so the part is still emitted, with empty content. */
  datatype Attachment = Attachment(name: string, content: Option<seq<byte>>)

  /** The bytes an attachment part carries. */
  function Payload(a: Attachment): seq<byte> {
    if a.content.Some? then a.content.value else []
  }

  /** The message fields of a mailer: sender address and display name, the three
      recipient lists, subject, HTML body, the stored extra header lines and the
      attachments, each list in the order it was filled. */
  datatype Envelope = Envelope(
    from: string,
    fromName: string,
    to: seq<string>,
    cc: seq<string>,
    bcc: seq<string>,
    subject: string,
    body: string,
    headers: seq<string>,
    attachments: seq<Attachment>)

  /* ---------------------------------------------------------------------- */
  /* The From header                                                          */
  /* ---------------------------------------------------------------------- */

  /** How many double quotes `s` holds. */
  function Quotes(s: string): nat
    decreases |s|
  {
    if |s| == 0 then 0 else (if s[0] == '"' then 1 else 0) + Quotes(s[1..])
  }

  lemma {:induction false} QuotesAppend(a: string, b: string)
    ensures Quotes(a + b) == Quotes(a) + Quotes(b)
    decreases |a|
  {
    if |a| == 0 {
      assert a + b == b;
    } else {
      assert (a + b)[1..] == a[1..] + b;
      QuotesAppend(a[1..], b);
    }
  }

  predicate Unquoted(s: string) {
    forall i :: 0 <= i < |s| ==> s[i] != '"'
  }

  lemma {:induction false} QuotesUnquoted(s: string)
    requires Unquoted(s)
    ensures Quotes(s) == 0
    decreases |s|
  {
    if |s| > 0 {
      QuotesUnquoted(s[1..]);
    }
  }

  /** The From header exactly as line 224 writes it: the display name is
      followed by a closing quote that was never opened. */
  function FromHeaderAsWritten(name: string, addr: string): string {
    "From: " + (if Truthy(name) then name + "\" " else "") + "<" + addr + ">"
  }

  /** The From header as intended: a quoted display name, then the address in
      angle brackets (the name-addr form of section 3.4 of RFC 5322). */
  function FromHeader(name: string, addr: string): string {
    "From: " + (if Truthy(name) then "\"" + name + "\" " else "") + "<" + addr + ">"
  }

  /** With a display name, the header as written holds ONE double quote, so its
      quoted string never closes. */
  lemma FromHeaderAsWrittenUnbalanced(name: string, addr: string)
    requires Truthy(name) && Unquoted(name) && Unquoted(addr)
    ensures Quotes(FromHeaderAsWritten(name, addr)) == 1
  {
    QuotesUnquoted(name);
    QuotesUnquoted(addr);
    QuotesAppend("From: ", name + "\" ");
    QuotesAppend(name, "\" ");
    QuotesAppend("From: " + (name + "\" "), "<");
    QuotesAppend("From: " + (name + "\" ") + "<", addr);
    QuotesAppend("From: " + (name + "\" ") + "<" + addr, ">");
    assert FromHeaderAsWritten(name, addr) == "From: " + (name + "\" ") + "<" + addr + ">";
  }

  /** A concrete input: the name "Ana" gives `From: Ana" <ana@example.com>`. */
  lemma FromHeaderAsWrittenExample()
    ensures FromHeaderAsWritten("Ana", "ana@example.com") == "From: Ana\" <ana@example.com>"
    ensures Quotes(FromHeaderAsWritten("Ana", "ana@example.com")) == 1
  {
    assert Truthy("Ana");
    FromHeaderAsWrittenUnbalanced("Ana", "ana@example.com");
  }

  /** The corrected header opens and closes the quoted display name (two quotes,
      or none without a name) and keeps the address in angle brackets. */
  lemma FromHeaderBalanced(name: string, addr: string)
    requires Unquoted(name) && Unquoted(addr)
    ensures Quotes(FromHeader(name, addr)) == if Truthy(name) then 2 else 0
    ensures Truthy(name) ==> FromHeader(name, addr) == "From: \"" + name + "\" <" + addr + ">"
    ensures !Truthy(name) ==> FromHeader(name, addr) == "From: <" + addr + ">"
  {
    QuotesUnquoted(name);
    QuotesUnquoted(addr);
    if Truthy(name) {
      FromHeaderNamed(name, addr);
    } else {
      FromHeaderBare(name, addr);
    }
  }

  lemma FromHeaderNamed(name: string, addr: string)
    requires Truthy(name) && Quotes(name) == 0 && Quotes(addr) == 0
    ensures Quotes(FromHeader(name, addr)) == 2
    ensures FromHeader(name, addr) == "From: \"" + name + "\" <" + addr + ">"
  {
    var mid := "\"" + name + "\" ";
    QuotesAppend("\"", name);
    QuotesAppend("\"" + name, "\" ");
    QuotesAppend("From: ", mid);
    QuotesAppend("From: " + mid, "<");
    QuotesAppend("From: " + mid + "<", addr);
    QuotesAppend("From: " + mid + "<" + addr, ">");
    assert "From: " + mid + "<" + addr + ">" == "From: \"" + name + "\" <" + addr + ">";
  }

  lemma FromHeaderBare(name: string, addr: string)
    requires !Truthy(name) && Quotes(addr) == 0
    ensures Quotes(FromHeader(name, addr)) == 0
    ensures FromHeader(name, addr) == "From: <" + addr + ">"
  {
    QuotesAppend("From: ", "");
    QuotesAppend("From: " + "", "<");
    QuotesAppend("From: " + "" + "<", addr);
    QuotesAppend("From: " + "" + "<" + addr, ">");
    assert "From: " + "" + "<" == "From: <";
  }

  /* ---------------------------------------------------------------------- */
  /* The header block                                                         */
  /* ---------------------------------------------------------------------- */

  function ToHeader(to: seq<string>): string {
    "To: " + Implode(", ", to)
  }

  /** "" when there are no Cc addresses; the filter then drops it. */
  function CcHeader(cc: seq<string>): string {
    if |cc| > 0 then "Cc: " + Implode(", ", cc) else ""
  }

  function SubjectHeader(subject: string): string {
    "Subject: " + HtmlEscape(subject)
  }

  /** `array_filter(array_merge([$fromHeader, $toHeader, $ccHeader, $subjectHeader], $headers))` */
  function HeaderLines(e: Envelope, stored: seq<string>): seq<string> {
    DropFalsy([FromHeader(e.fromName, e.from), ToHeader(e.to), CcHeader(e.cc), SubjectHeader(e.subject)] + stored)
  }

  /** The header lines joined by CRLF. */
  function HeaderBlock(e: Envelope, stored: seq<string>): string {
    Implode(CRLF, HeaderLines(e, stored))
  }

  /** The header lines as line 224 builds them, with the From header as
      written. */
  function HeaderLinesAsWritten(e: Envelope, stored: seq<string>): seq<string> {
    DropFalsy([FromHeaderAsWritten(e.fromName, e.from), ToHeader(e.to), CcHeader(e.cc), SubjectHeader(e.subject)] + stored)
  }

  /** The program's header lines differ from the model's in the From line
      alone, and not at all when there is no display name. */
  lemma HeaderLinesAsWrittenDiffer(e: Envelope, stored: seq<string>)
    ensures var lines := HeaderLines(e, stored);
      && |lines| >= 3
      && HeaderLinesAsWritten(e, stored) == [FromHeaderAsWritten(e.fromName, e.from)] + lines[1..]
      && (!Truthy(e.fromName) ==> HeaderLinesAsWritten(e, stored) == lines)
  {
    FromHeadersTruthy(e.fromName, e.from);
    TruthyLabelled("To: ", Implode(", ", e.to));
    TruthyLabelled("Subject: ", HtmlEscape(e.subject));
    DropFalsySwapLead(FromHeader(e.fromName, e.from), FromHeaderAsWritten(e.fromName, e.from),
                      ToHeader(e.to), CcHeader(e.cc), SubjectHeader(e.subject), stored);
  }

  lemma FromHeadersTruthy(name: string, addr: string)
    ensures Truthy(FromHeader(name, addr)) && Truthy(FromHeaderAsWritten(name, addr))
    ensures !Truthy(name) ==> FromHeader(name, addr) == FromHeaderAsWritten(name, addr)
  {
    TruthyByFirstChar(FromHeader(name, addr));
    TruthyByFirstChar(FromHeaderAsWritten(name, addr));
  }

  /** Swapping the first of four leading lines, all but the third non-falsy. */
  lemma DropFalsySwapLead(f: string, w: string, t: string, c: string, j: string, stored: seq<string>)
    requires Truthy(f) && Truthy(w) && Truthy(t) && Truthy(j)
    ensures |DropFalsy([f, t, c, j] + stored)| >= 3
    ensures DropFalsy([w, t, c, j] + stored) == [w] + DropFalsy([f, t, c, j] + stored)[1..]
  {
    DropFalsyLead(f, t, c, j, stored);
    DropFalsyLead(w, t, c, j, stored);
    var rest := [t] + (if Truthy(c) then [c] else []) + [j] + DropFalsy(stored);
    assert DropFalsy([f, t, c, j] + stored) == [f] + rest;
    assert DropFalsy([w, t, c, j] + stored) == [w] + rest;
    assert ([f] + rest)[1..] == rest;
  }

  /** So the program's header block is the as-written From line followed by
      everything after the From line in the model's block. */
  lemma HeaderBlockAsWritten(e: Envelope, stored: seq<string>)
    ensures var f := FromHeader(e.fromName, e.from);
      && |f| <= |HeaderBlock(e, stored)|
      && Implode(CRLF, HeaderLinesAsWritten(e, stored))
         == FromHeaderAsWritten(e.fromName, e.from) + HeaderBlock(e, stored)[|f|..]
  {
    HeaderLinesAsWrittenDiffer(e, stored);
    var lines := HeaderLines(e, stored);
    var f, w := FromHeader(e.fromName, e.from), FromHeaderAsWritten(e.fromName, e.from);
    var tail := Implode(CRLF, lines[1..]);
    ImplodeCons(f, lines[1..]);
    assert [f] + lines[1..] == lines;
    ImplodeCons(w, lines[1..]);
    SliceAfter(f, CRLF + tail);
  }

  /** Imploding a list of two or more parts: the first part, the separator, the rest. */
  lemma ImplodeCons(first: string, rest: seq<string>)
    requires |rest| > 0
    ensures Implode(CRLF, [first] + rest) == first + (CRLF + Implode(CRLF, rest))
  {
    assert ([first] + rest)[1..] == rest;
  }

  lemma SliceAfter(a: string, b: string)
    ensures (a + b)[|a|..] == b
  {
  }

  /** The header lines are From, To, Cc only when there are Cc addresses,
      Subject, then every stored header line that is not falsy, in order. */
  lemma HeaderOrder(e: Envelope, stored: seq<string>)
    ensures HeaderLines(e, stored) ==
      [FromHeader(e.fromName, e.from), ToHeader(e.to)]
      + (if |e.cc| > 0 then [CcHeader(e.cc)] else [])
      + [SubjectHeader(e.subject)]
      + DropFalsy(stored)
  {
    var f, t, c, j := FromHeader(e.fromName, e.from), ToHeader(e.to), CcHeader(e.cc), SubjectHeader(e.subject);
    TruthyLabelled("From: ", if Truthy(e.fromName) then "\"" + e.fromName + "\" " + "<" + e.from + ">" else "<" + e.from + ">");
    TruthyLabelled("To: ", Implode(", ", e.to));
    TruthyLabelled("Subject: ", HtmlEscape(e.subject));
    if |e.cc| > 0 {
      TruthyLabelled("Cc: ", Implode(", ", e.cc));
    }
    DropFalsyLead(f, t, c, j, stored);
  }

  /** A header line starts with its name, so it is never falsy. */
  lemma TruthyLabelled(fieldName: string, value: string)
    requires |fieldName| > 0 && fieldName[0] != '0'
    ensures Truthy(fieldName + value)
  {
    TruthyByFirstChar(fieldName + value);
  }

  lemma DropFalsyLead(f: string, t: string, c: string, j: string, stored: seq<string>)
    requires Truthy(f) && Truthy(t) && Truthy(j)
    ensures DropFalsy([f, t, c, j] + stored) ==
      [f, t] + (if Truthy(c) then [c] else []) + [j] + DropFalsy(stored)
  {
    var xs := [f, t, c, j] + stored;
    assert xs[1..] == [t, c, j] + stored;
    assert xs[1..][1..] == [c, j] + stored;
    assert xs[1..][1..][1..] == [j] + stored;
    assert xs[1..][1..][1..][1..] == stored;
    var d3 := DropFalsy([j] + stored);
    assert d3 == [j] + DropFalsy(stored);
    var d2 := DropFalsy([c, j] + stored);
    assert d2 == (if Truthy(c) then [c] else []) + d3;
    var d1 := DropFalsy([t, c, j] + stored);
    assert d1 == [t] + d2;
    assert DropFalsy(xs) == [f] + d1;
  }

  /** The header block opens with the From header. */
  lemma HeaderBlockStartsWithFrom(e: Envelope, stored: seq<string>)
    ensures StartsWith(HeaderBlock(e, stored), "From: ")
  {
    HeaderOrder(e, stored);
    var lines := HeaderLines(e, stored);
    ImplodeStartsWithFirst(CRLF, lines);
  }

  /* ---------------------------------------------------------------------- */
  /* Content-Type headers                                                     */
  /* ---------------------------------------------------------------------- */

  /** `strpos(strtolower($header), 'content-type:') !== false` */
  predicate HasContentType(h: string) {
    Contains(ToLower(h), "content-type:")
  }

  /** The `array_filter` with a callback at lines 236-238: every stored header
      that mentions content-type, in any letter case, is dropped. */
  function DropContentType(hs: seq<string>): (r: seq<string>)
    decreases |hs|
  {
    if |hs| == 0 then []
    else (if HasContentType(hs[0]) then [] else [hs[0]]) + DropContentType(hs[1..])
  }

  function MultipartHeader(boundary: string): string {
    "Content-Type: multipart/mixed; boundary=\"" + boundary + "\""
  }

  /** The stored headers after line 240. */
  function MultipartHeaders(stored: seq<string>, boundary: string): seq<string> {
    DropContentType(stored) + [MultipartHeader(boundary)]
  }

  /** Dropping keeps exactly the stored headers without content-type, in order. */
  lemma {:induction false} DropContentTypeKeeps(hs: seq<string>)
    ensures forall i :: 0 <= i < |DropContentType(hs)| ==>
      !HasContentType(DropContentType(hs)[i]) && DropContentType(hs)[i] in hs
    ensures forall i :: 0 <= i < |hs| && !HasContentType(hs[i]) ==> hs[i] in DropContentType(hs)
    ensures (forall i :: 0 <= i < |hs| ==> !HasContentType(hs[i])) ==> DropContentType(hs) == hs
    decreases |hs|
  {
    if |hs| > 0 {
      DropContentTypeKeeps(hs[1..]);
      var r := DropContentType(hs);
      assert forall i :: 1 <= i < |hs| ==> hs[i] == hs[1..][i - 1];
      if !HasContentType(hs[0]) {
        assert r[0] == hs[0];
        assert forall i :: 1 <= i < |r| ==> r[i] == DropContentType(hs[1..])[i - 1];
      }
      if forall i :: 0 <= i < |hs| ==> !HasContentType(hs[i]) {
        assert [hs[0]] + hs[1..] == hs;
      }
    }
  }

  /** Dropping works header by header, so the survivors keep their order:
      dropping from two lists joined is dropping from each, joined. */
  lemma {:induction false} DropContentTypeAppend(a: seq<string>, b: seq<string>)
    ensures DropContentType(a + b) == DropContentType(a) + DropContentType(b)
    decreases |a|
  {
    if |a| == 0 {
      assert a + b == b;
    } else {
      assert (a + b)[0] == a[0] && (a + b)[1..] == a[1..] + b;
      DropContentTypeAppend(a[1..], b);
    }
  }

  lemma MultipartHeaderHasContentType(boundary: string)
    ensures HasContentType(MultipartHeader(boundary))
  {
    var h := MultipartHeader(boundary);
    var head := "Content-Type: multipart/mixed; boundary=\"";
    assert h == head + (boundary + "\"");
    var ct := "Content-Type:";
    assert head == ct + head[13..];
    ToLowerAppend(head, boundary + "\"");
    ToLowerAppend(ct, head[13..]);
    LowerContentType();
    assert ToLower(h) == "content-type:" + (ToLower(head[13..]) + ToLower(boundary + "\""));
    assert StartsWith(ToLower(h), "content-type:");
  }

  lemma LowerContentType()
    ensures ToLower("Content-Type:") == "content-type:"
  {
    var ct := "Content-Type:";
    assert forall i :: 0 <= i < 13 ==> ToLower(ct)[i] == "content-type:"[i];
  }

  /** With attachments, the stored headers end up holding exactly ONE header
      that mentions content-type, the multipart one at the end; every other
      stored header without content-type survives. */
  lemma MultipartHeadersContentType(stored: seq<string>, boundary: string)
    ensures var r := MultipartHeaders(stored, boundary);
      && |r| > 0
      && r[|r| - 1] == MultipartHeader(boundary)
      && HasContentType(r[|r| - 1])
      && (forall i :: 0 <= i < |r| - 1 ==> !HasContentType(r[i]) && r[i] in stored)
      && (forall i :: 0 <= i < |stored| && !HasContentType(stored[i]) ==> stored[i] in r)
  {
    DropContentTypeKeeps(stored);
    MultipartHeaderHasContentType(boundary);
    var r := MultipartHeaders(stored, boundary);
    assert forall i :: 0 <= i < |r| - 1 ==> r[i] == DropContentType(stored)[i];
  }

  /* ---------------------------------------------------------------------- */
  /* The multipart payload                                                    */
  /* ---------------------------------------------------------------------- */

  /** `"boundary-" . md5(time())`, with the hash as a parameter. */
  function Boundary(token: string): string {
    "boundary-" + token
  }

  /** The line that opens each part. */
  function Delimiter(boundary: string): string {
    "--" + boundary + CRLF
  }

  /** The line that closes the payload. */
  function CloseDelimiter(boundary: string): string {
    "--" + boundary + "--"
  }

  function BodyPart(boundary: string, body: string): string {
    Delimiter(boundary)
    + ("Content-Type: text/html; charset=\"utf-8\"" + CRLF
       + "Content-Transfer-Encoding: 8bit" + CRLF + CRLF
       + body + CRLF)
  }

  /** The delimiter and MIME headers of an attachment part, up to the blank line. */
  function AttachmentHead(boundary: string, name: string): string {
    Delimiter(boundary)
    + ("Content-Type: application/octet-stream; name=\"" + name + "\"" + CRLF
       + "Content-Transfer-Encoding: base64" + CRLF
       + "Content-Disposition: attachment; filename=\"" + name + "\"" + CRLF + CRLF)
  }

  function AttachmentPart(boundary: string, a: Attachment): string {
    AttachmentHead(boundary, a.name) + (ChunkSplit(Encode(Payload(a))) + CRLF)
  }

  function AttachmentParts(boundary: string, atts: seq<Attachment>): (r: seq<string>)
    ensures |r| == |atts|
    ensures forall i :: 0 <= i < |atts| ==> r[i] == AttachmentPart(boundary, atts[i])
    decreases |atts|
  {
    if |atts| == 0 then [] else [AttachmentPart(boundary, atts[0])] + AttachmentParts(boundary, atts[1..])
  }

  /** The parts of the payload: the HTML body, then one per attachment. */
  function Parts(boundary: string, body: string, atts: seq<Attachment>): (ps: seq<string>)
    ensures |ps| == |atts| + 1
    ensures ps[0] == BodyPart(boundary, body)
    ensures forall i :: 0 <= i < |atts| ==> ps[i + 1] == AttachmentPart(boundary, atts[i])
  {
    [BodyPart(boundary, body)] + AttachmentParts(boundary, atts)
  }

  /** The payload of lines 244-259: it opens with the body part and ends with
      the closing delimiter. */
  function Multipart(boundary: string, body: string, atts: seq<Attachment>): (r: string)
    ensures StartsWith(r, BodyPart(boundary, body))
    ensures var close := CloseDelimiter(boundary); |r| >= |close| && r[|r| - |close|..] == close
  {
    var ps := Parts(boundary, body, atts);
    ConcatOpens(ps);
    Concat(ps) + CloseDelimiter(boundary)
  }

  /** A joined list of parts opens with its first part. */
  lemma ConcatOpens(ps: seq<string>)
    requires |ps| > 0
    ensures StartsWith(Concat(ps), ps[0])
  {
  }

  /** N attachments make N+1 parts, each opened by the same delimiter line; the
      first holds the body, part i+1 holds attachment i, and the payload ends
      with the closing delimiter. */
  lemma MultipartLayout(boundary: string, body: string, atts: seq<Attachment>)
    ensures forall i :: 0 <= i < |atts| + 1 ==>
      StartsWith(Parts(boundary, body, atts)[i], Delimiter(boundary))
  {
    var ps := Parts(boundary, body, atts);
    forall i | 0 <= i < |ps|
      ensures StartsWith(ps[i], Delimiter(boundary))
    {
      if i == 0 {
        BodyPartOpens(boundary, body);
      } else {
        AttachmentPartOpens(boundary, atts[i - 1]);
      }
    }
  }

  lemma BodyPartOpens(boundary: string, body: string)
    ensures StartsWith(BodyPart(boundary, body), Delimiter(boundary))
  {
  }

  lemma AttachmentPartOpens(boundary: string, a: Attachment)
    ensures StartsWith(AttachmentPart(boundary, a), Delimiter(boundary))
  {
    var d := Delimiter(boundary);
    var h := AttachmentHead(boundary, a.name);
    assert h[..|d|] == d;
    assert AttachmentPart(boundary, a)[..|d|] == h[..|d|];
  }

  /** An attachment part is its head, the base64 text of its bytes cut into
      CRLF-ended lines of 76 characters (the last one possibly shorter), and a
      CRLF; removing the line breaks and decoding gives the bytes back. */
  lemma AttachmentPartEncoding(boundary: string, a: Attachment)
    ensures var lines := Chunks(Encode(Payload(a)));
      && AttachmentPart(boundary, a) == AttachmentHead(boundary, a.name) + Terminate(lines) + CRLF
      && Concat(lines) == Encode(Payload(a))
      && (forall i :: 0 <= i < |lines| ==> |lines[i]| <= LineLength)
      && (forall i :: 0 <= i < |lines| - 1 ==> |lines[i]| == LineLength)
    ensures var p := AttachmentPart(boundary, a);
      var h := AttachmentHead(boundary, a.name);
      && |h| + 2 <= |p|
      && Decode(Unwrap(p[|h|..|p| - 2])) == Some(Payload(a))
  {
    AttachmentPartSplit(boundary, a);
    WrappedRoundTrip(Payload(a));
  }

  lemma AttachmentPartSplit(boundary: string, a: Attachment)
    ensures var p := AttachmentPart(boundary, a);
      var h := AttachmentHead(boundary, a.name);
      var w := ChunkSplit(Encode(Payload(a)));
      && p == h + w + CRLF
      && |h| + 2 <= |p|
      && p[|h|..|p| - 2] == w
  {
    var p := AttachmentPart(boundary, a);
    var h := AttachmentHead(boundary, a.name);
    var w := ChunkSplit(Encode(Payload(a)));
    assert p == h + (w + CRLF);
  }

  /* ---------------------------------------------------------------------- */
  /* The DATA text                                                            */
  /* ---------------------------------------------------------------------- */

  /** The text sent after DATA, and the stored header list as it stands after
      the build (line 236 overwrites it when there are attachments). */
  datatype Built = Built(data: string, headers: seq<string>)

  /** Header block, blank line, content, and the "." that ends the data. */
  function Framed(e: Envelope, stored: seq<string>, content: string): string {
    HeaderBlock(e, stored) + (CRLF + CRLF + content + CRLF + ".")
  }

  lemma FramedShape(e: Envelope, stored: seq<string>, content: string)
    ensures StartsWith(Framed(e, stored, content), "From: ")
    ensures var d := Framed(e, stored, content); |d| >= 3 && d[|d| - 3..] == CRLF + "."
  {
    HeaderBlockStartsWithFrom(e, stored);
    var hb := HeaderBlock(e, stored);
    var tail := CRLF + CRLF + content + CRLF + ".";
    assert Framed(e, stored, content)[..6] == hb[..6];
    assert tail[|tail| - 3..] == CRLF + ".";
  }

  /** Lines 224-260. Without attachments the body goes out as is under the
      stored headers; with attachments the stored headers lose their
      Content-Type lines, gain the multipart one, and the payload replaces the
      body. The bcc list is not read. */
  function Build(e: Envelope, token: string): (r: Built)
    ensures StartsWith(r.data, "From: ")
    ensures |r.data| >= 3 && r.data[|r.data| - 3..] == CRLF + "."
    ensures |e.attachments| == 0 ==> r.headers == e.headers && r.data == Framed(e, e.headers, e.body)
    ensures |e.attachments| > 0 ==>
      var b := Boundary(token);
      && r.headers == MultipartHeaders(e.headers, b)
      && r.data == Framed(e, r.headers, Multipart(b, e.body, e.attachments))
  {
    var stored := if |e.attachments| == 0 then e.headers else MultipartHeaders(e.headers, Boundary(token));
    var content := if |e.attachments| == 0 then e.body else Multipart(Boundary(token), e.body, e.attachments);
    FramedShape(e, stored, content);
    Built(Framed(e, stored, content), stored)
  }

  /** Blind copies stay blind: the DATA text and the stored headers do not
      depend on the bcc list at all. */
  lemma BccNeverInMessage(e: Envelope, bcc: seq<string>, token: string)
    ensures Build(e.(bcc := bcc), token) == Build(e, token)
  {
  }
}
