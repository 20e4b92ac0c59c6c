# GnzMailer core in Dafny

This project models the sending core of GnzMailer, a PHP class that sends HTML mail
through an SMTP server or through PHP's `mail()`. The model follows `gnzmailer.php`:

- `PhpText`: the PHP runtime behaviour the class relies on. This covers `empty()`
  and truthiness of strings (the string "0" is falsy), `array_filter`, `implode`,
  `strtolower`, `strpos`, the `(int)` cast, `htmlspecialchars` and
  `filter_var(..., FILTER_SANITIZE_EMAIL)`.
- `Base64`: `base64_encode` (section 4 of RFC 4648) with a decoder as its partner,
  and `chunk_split` (76-character lines, each ended by CRLF).
- `Reply`: `smtpGetResponse`. It reads reply lines until one has a space as its
  fourth character, a falsy line comes back, or the input runs out. It takes the
  code from the first three characters of the gathered text and produces the
  "Expected code …, got …. Response: …" error.
- `Mime`: the DATA text `sendSmtp` builds. This covers:
  - the From/To/Cc/Subject header block merged with the stored headers and
    filtered;
  - with attachments, the multipart/mixed payload, with the stored Content-Type
    headers replaced by the multipart one.
- `Smtp`: `sendSmtp`, `smtpConnect` and `smtpCommand` as a PLAN (the command and
  expected code of every step) and a runner that walks the plan against a scripted
  server. The plan's steps are:
  - EHLO;
  - STARTTLS, the handshake and EHLO again when the encryption setting is "tls";
  - AUTH LOGIN and the base64 user name and password when a user name is set;
  - MAIL FROM, and RCPT TO for each To, Cc and Bcc address;
  - DATA and the message data.

  QUIT follows a complete run. The first mismatching reply ends the session.
  The "ssl" setting prefixes the host with `ssl://`.
- `Mailer`: the `GnzMailer` object. This covers the setters and list builders,
  the constructor's default headers, and `send`, which refuses an incomplete
  envelope before any connection.
- `Scenarios`: concrete configurations and server scripts with the exact
  commands and error texts they produce.

The socket is replaced by data:
- whether `fsockopen` succeeds, with its errno and text;
- whether the TLS handshake succeeds;
- the strings successive `fgets` calls return.

The hash in the multipart boundary (`md5(time())`) is a parameter. So are the
answers of `file_exists` and `mail()`.

Points where the code's behaviour is easy to misread. Each is stated as the
code does it; the From header, the last point, is the one place where the
model's main path departs from the code:
- **Reply code.** The reply code is read from the FIRST line of a multi-line
  reply (section 4.2 of RFC 5321 gives every line of a reply the same code),
  because the code casts the first three characters of the accumulated text,
  so a later line's code is never looked at. See `Reply.CodeFromFirstLine`
  and `Reply.ContinuationDecidesCode`.
- **Falsy line.** A falsy line ("0" or "") ends the reply without being
  appended to it.
- **Bare-code last line.** A last line holding only the code ("250" CRLF),
  which the reply grammar of section 4.2 of RFC 5321 allows, has no space as
  its fourth character, so the loop reads on into the next reply and takes
  both as one. See `Reply.CodeOnlyLineReadsOn`.
- **No attachments.** The stored headers go out unchanged. The constructor's
  `Content-type` header is kept and no Content-Type line is stripped; only
  the multipart branch replaces Content-Type headers.
- **Unreadable attachment.** An attachment whose file can no longer be read at
  build time still produces a part, with empty base64 content.
- **From header.** Line 224 writes a closing quote after the display name but
  no opening one. The model's DATA text uses the corrected header (see
  "## Findings"); `Mime.HeaderLinesAsWritten` and
  `Mime.HeaderBlockAsWritten` state the program's header block, which differs
  in the From line alone.

## Model

| member | source | states |
|---|---|---|
| PhpText.IntCastDecimal | gnzmailer.php:309 | `(int)` of the printed form of a natural number gives that number back |
| PhpText.HtmlEscape | gnzmailer.php:69 | the escaped text holds no double quote, single quote or angle bracket, is never shorter, and is unchanged when nothing needs escaping |
| PhpText.SanitizeEmail | gnzmailer.php:74 | the sanitized address keeps only allowed address characters, is never longer, and is unchanged when every character is allowed |
| PhpText.SanitizedAddressIsInert | gnzmailer.php:94 | a sanitized address holds no quote, angle bracket, blank or line break, so it cannot break out of `<...>` in MAIL FROM or RCPT TO |
| PhpText.DropFalsyAppend | gnzmailer.php:230 | `array_filter` distributes over concatenation of lists |
| Base64.Encode | gnzmailer.php:205 | the encoded text has 4 characters per started group of 3 bytes and uses only the base64 alphabet and '=' |
| Base64.DecodeEncode | gnzmailer.php:205-206 | decoding the base64 of any byte string gives the byte string back |
| Base64.Chunks | gnzmailer.php:251 | `chunk_split` cuts the text into pieces that join back to it, every piece at most 76 characters, all but the last exactly 76 |
| Base64.UnwrapChunkSplit | gnzmailer.php:251 | removing the CRLFs `chunk_split` inserts gives the text back |
| Base64.WrappedRoundTrip | gnzmailer.php:251 | the wrapped base64 text of any bytes decodes, once unwrapped, to those bytes |
| Reply.Expect | gnzmailer.php:299-316 | the reply passes exactly when the code read matches the expected one; a failure's error is "Expected code E, got C. Response: R" with C the code of the gathered text R, for multi-line replies too; the lines left over are a suffix of the input, strictly shorter when there was input |
| Reply.CodeOnlyLineReadsOn | gnzmailer.php:302-307 | a last line holding only the code ("250" CRLF) does not end the reply: the next reply is read as part of it |
| Reply.Read | gnzmailer.php:302-307 | the loop consumes at least one line when there is one, and stops at the end of input or right after a line that ends the reply |
| Reply.ReadStops | gnzmailer.php:302-307 | no line before the last one consumed ends a reply, and the gathered text is every consumed line except a falsy one |
| Reply.ExpectReplyLine | gnzmailer.php:299-316 | a single-line reply with the expected three-digit code passes and consumes exactly that line |
| Reply.ExpectWrongCode | gnzmailer.php:309-313 | a reply with another code fails with "Expected code E, got C. Response: " followed by the raw line, and consumes that line |
| Reply.CodeFromFirstLine | gnzmailer.php:309 | the code of a reply is the cast of the first three characters of its first line |
| Reply.ContinuationDecidesCode | gnzmailer.php:302-310 | "250-…" followed by "550 …" is one reply, read as code 250 |
| Reply.SilentServer | gnzmailer.php:301-313 | with no reply lines the code is 0 and any non-zero expectation fails with an empty response |
| Smtp.Target | gnzmailer.php:272-275 | the host dialled is "ssl://" + host exactly when the encryption setting is "ssl", and the bare host otherwise |
| Smtp.RcptSteps | gnzmailer.php:210-220 | one RCPT TO step per address, expecting 250, in the given order |
| Smtp.Run | gnzmailer.php:191-263 | a run completes every step exactly when it has no failure |
| Smtp.RunSent | gnzmailer.php:191-263 | a complete run sent every planned command; a failed run sent the commands up to and including the failing step and none after; a failing handshake step carries "Failed to enable TLS." |
| Smtp.RunSentPrefix | gnzmailer.php:191-263 | what a run sends is always a prefix of the planned commands |
| Smtp.Converse | gnzmailer.php:185-297 | the session dials the target host and the configured port; on success it sent all planned commands then QUIT with DATA accepted; on failure it sent a prefix and left an error; a refused connection sends nothing and leaves "errno - errstr"; a greeting of any form whose code is not 220 ends the session with no command sent and the mismatch as error |
| Smtp.ConverseAfterGreeting | gnzmailer.php:263-267 | after the greeting, the verdict is that of the run; a complete run adds QUIT, and the QUIT reply only decides whether an error text is left, never the verdict |
| Smtp.ConverseBadGreeting | gnzmailer.php:285 | a greeting with a code other than 220 ends the session before any command, with the mismatch as error |
| Smtp.PlanLength | gnzmailer.php:191-222 | the plan has one step per recipient, four fixed steps, three more with STARTTLS and three more with a user name, and ends with DATA (354) and the data (250) |
| Smtp.PlanOpensWithEhlo | gnzmailer.php:191 | the first command is "EHLO " + host, expecting 250 |
| Smtp.PlanStartTls | gnzmailer.php:193-201 | STARTTLS (220) and the handshake are planned exactly when the encryption setting is "tls", right after EHLO and followed by a second EHLO |
| Smtp.PlanAuthPlacement | gnzmailer.php:203-209 | with a user name, AUTH LOGIN (334), the base64 user (334) and the base64 password (235) come right before MAIL FROM; without one, MAIL FROM follows the EHLO block |
| Smtp.PlanAuth | gnzmailer.php:203-207 | AUTH LOGIN is among the commands exactly when the user name is not empty |
| Smtp.PlanEnvelope | gnzmailer.php:209-222 | MAIL FROM (250) follows the EHLO, STARTTLS and AUTH blocks; then come exactly the RCPT TO steps of the recipients, in order, and finally DATA (354) and the data (250); the plan length counts each recipient once |
| Smtp.RunNominalThen | gnzmailer.php:288-297 | against a reader that accepts well-formed replies, accepted steps send their commands in order, and the run continues as if it had started after them |
| Smtp.RunRejectedAt | gnzmailer.php:288-297 | the first refused reply ends the run with that command as the last sent and its error as the run's |
| Smtp.ConverseNominal | gnzmailer.php:185-268 | a server that accepts everything receives every planned command and then QUIT, and the verdict is true whatever it answers to QUIT |
| Smtp.ConverseRejectedAt | gnzmailer.php:191-263 | a server that refuses step k gets exactly the commands up to step k, and the session fails with the mismatch; DATA counts as accepted only when step k is the data itself |
| Smtp.ConverseTlsFailure | gnzmailer.php:193-199 | a failed handshake after STARTTLS ends the session with "Failed to enable TLS.", having sent only EHLO and STARTTLS |
| Mime.FromHeaderAsWrittenUnbalanced | gnzmailer.php:224 | with a display name, the From header as written holds exactly one double quote |
| Mime.FromHeaderBalanced | gnzmailer.php:224 | the corrected From header quotes the display name with two quotes, or has the bare address when the name is empty |
| Mime.HeaderLinesAsWrittenDiffer | gnzmailer.php:224-230 | the program's header lines differ from the model's in the From line alone, and not at all without a display name |
| Mime.HeaderBlockAsWritten | gnzmailer.php:224-230 | the program's header block is its From line followed by everything after the From line of the model's block |
| Mime.HeaderOrder | gnzmailer.php:224-230 | the header lines are the corrected From header, To, Cc only with Cc addresses, Subject, then the non-falsy stored headers in order; no Bcc line |
| Mime.MultipartHeadersContentType | gnzmailer.php:236-240 | after the rewrite exactly one stored header mentions content-type, the multipart one at the end, and every other header without content-type survives |
| Mime.DropContentTypeAppend | gnzmailer.php:236-240 | the Content-Type filter works header by header: filtering two lists joined is filtering each and joining, so the surviving headers keep their order |
| Mime.Parts | gnzmailer.php:244-257 | N attachments make N+1 parts: the HTML body first, then one part per attachment in order |
| Mime.Multipart | gnzmailer.php:244-259 | the payload opens with the HTML body part and ends with the closing "--boundary--" line |
| Mime.MultipartLayout | gnzmailer.php:244-252 | every part opens with the same "--boundary" CRLF delimiter line |
| Mime.AttachmentPartEncoding | gnzmailer.php:249-256 | an attachment part is its head, the base64 of its bytes in CRLF-ended lines of at most 76 characters (all but the last exactly 76), and a CRLF; the text between decodes back to the bytes |
| Mime.Build | gnzmailer.php:224-261 | the data opens with the (corrected) From header and ends with CRLF "."; without attachments the stored headers are kept; with attachments they become the multipart headers and the payload replaces the body |
| Mime.BccNeverInMessage | gnzmailer.php:224-261 | the data and the stored headers do not depend on the Bcc list |
| Mailer.New | gnzmailer.php:30-33 | a fresh mailer has empty lists, no error, the two default headers, and is not ready to send |
| Mailer.SetFrom | gnzmailer.php:66-70 | the stored address and display name hold no double quote, the address no angle bracket, blank or line break; the address is never longer and the name never shorter than given; nothing else changes |
| Mailer.SetFromHeaderQuotes | gnzmailer.php:66-70 | after setFrom with a display name, the program's From header holds one double quote and the corrected one two |
| Mailer.SetSubject | gnzmailer.php:77-80 | the subject is stored as given and nothing else changes |
| Mailer.SetBody | gnzmailer.php:82-85 | the body is stored as given and nothing else changes |
| Mailer.AddAttachment | gnzmailer.php:102-107 | an existing file is appended to the attachments; a missing one leaves the mailer unchanged; nothing else changes |
| Mailer.AttachmentMakesMultipart | gnzmailer.php:236-259 | once an attachment is added, the built stored headers are the multipart ones and the DATA text carries the multipart payload with that attachment last |
| Mailer.FilledMailerReady | gnzmailer.php:109-122 | a fresh mailer given a From address, a To address, a subject and a body that are not empty is ready, and send does not refuse it |
| Mailer.AddAllToAppends | gnzmailer.php:72-75 | successive addTo calls append the sanitized addresses in call order and change nothing else |
| Mailer.AddAllCCAppends | gnzmailer.php:92-95 | successive addCC calls append the sanitized addresses in call order and change nothing else |
| Mailer.AddAllBCCAppends | gnzmailer.php:97-100 | successive addBCC calls append the sanitized addresses in call order and change nothing else |
| Mailer.AddAllHeadersAppends | gnzmailer.php:87-90 | successive addHeader calls append the lines verbatim in call order |
| Mailer.AddToKeepsDuplicates | gnzmailer.php:72-75 | adding the same address twice keeps both copies |
| Mailer.SanitizeAllInert | gnzmailer.php:74 | no recipient in a sanitized list holds a quote, angle bracket, blank or line break |
| Mailer.Recipients | gnzmailer.php:210-220 | the RCPT TO addresses number exactly the To, Cc and Bcc addresses together |
| Mailer.Send | gnzmailer.php:109-122 | an incomplete envelope gives false and the "Faltan datos" error; otherwise `mail()` decides the verdict with the right error text, or the SMTP session's verdict and error are returned and the headers are rewritten only once DATA was accepted |
| Mailer.SendMail | gnzmailer.php:138-146 | `mail()` decides the verdict; on refusal the error is the text for a message without or with attachments, and nothing else changes |
| Mailer.SendSmtp | gnzmailer.php:185-268 | the session dials the configured host and port; on success it sent every planned command (recipients in To, Cc, Bcc order, the built DATA text last) then QUIT, and the stored headers are the built ones; on failure the session's error replaces the mailer's and what was sent is a prefix of the plan; the stored headers change exactly when DATA was accepted; a refused connection sends nothing and leaves "errno - errstr"; nothing else changes |
| Mailer.SendRefusesIncomplete | gnzmailer.php:111-115 | with no To address, or an empty From, Subject or Body, send fails with "Faltan datos para el envío (To, From, Subject, Body)." and makes no connection |
| Mailer.FreshMailerRefuses | gnzmailer.php:30-33 | a fresh mailer refuses to send |
| Mailer.SendSmtpTranscript | gnzmailer.php:185-268 | a successful SMTP send issued exactly the planned commands, with recipients in To, Cc, Bcc order, then QUIT |
| Mailer.SendSmtpNominal | gnzmailer.php:185-268 | against an accepting server, send succeeds, sends the whole plan and QUIT, and stores the built headers |
| Mailer.SendSmtpRejectedAt | gnzmailer.php:191-263 | against a server refusing step k, send fails with the mismatch, has sent commands up to step k, and rewrites the stored headers only when step k is the data |
| Scenarios.SubmissionCommands | gnzmailer.php:191-222 | with STARTTLS and user "alice", the commands are EHLO, STARTTLS, EHLO, AUTH LOGIN, "YWxpY2U=", "c2VjcmV0", MAIL FROM, RCPT TO, DATA, data |
| Scenarios.OpenRelayCommands | gnzmailer.php:191-222 | without encryption or user, the host is dialled as is and the commands are EHLO, MAIL FROM, two RCPT TO, DATA, data |
| Scenarios.MultiLineEhlo | gnzmailer.php:302-310 | a three-line EHLO reply is read to its last line and passes, leaving the next reply unread |
| Scenarios.RefusedRecipient | gnzmailer.php:309-313 | a "550 No such user" reply to RCPT TO gives "Expected code 250, got 550. Response: 550 No such user" and CRLF |

## Left out

- `sendMail` (the `mail()` path, lines 124-183) is reduced to the verdict of `mail()` and its two error texts. Its header and MIME assembly duplicates the SMTP one and is not modelled separately.
- The configuration file (`file_exists`, `json_decode`, lines 35-55) is left out. The SMTP settings are a `Config` value, and the transport is chosen when the mailer is created.
- Sockets are data. `fsockopen`, `fputs`, `fgets` and the 30-second timeout are left out. Reply lines longer than `fgets`' 511-byte limit are assumed to arrive already split.
- The TLS handshake (`stream_socket_enable_crypto`) is a boolean.
- `error_log` calls are left out: they only write to the server log.
- `md5(time())` is a token parameter. `basename` is left out: an attachment is given by its base name and content.
- The "No connection available." branch of `smtpCommand` (lines 290-294) is left out. The connection is never closed during a session, so that branch cannot be reached after a successful `smtpConnect`.
- `__destruct` (closing the socket) is left out.
- Commands are modelled as their texts. The CRLF that `smtpCommand` appends on the wire (line 295) is not part of them.
- PhpText.IntCast: covers leading blanks, a sign and decimal digits. Exponent forms such as "2e2", which PHP casts to 200, are not modelled; a well-formed reply never starts that way.
- PhpText.HtmlEscape: ENT_SUBSTITUTE handling of invalid UTF-8 is not modelled. Strings are sequences of characters.
- PhpText.SanitizeEmail: model characters stand for bytes. Non-ASCII characters are removed as the filter removes non-ASCII bytes.
- Mime.HeaderOrder: states the header lines with the corrected From header. The program's From line, when there is a display name, is `Mime.FromHeaderAsWritten` (see "## Findings"); `Mime.HeaderLinesAsWrittenDiffer` states the program's lines.
- Mime.Build: the DATA text carries the corrected From header, so with a display name it differs from the program's text in that line alone (`Mime.HeaderBlockAsWritten`). The same holds for the data that `Mailer.Send` and `Mailer.SendSmtp` send.
- Base64.Latin1: user names and passwords are encoded as one byte per character (code modulo 256). Multi-byte UTF-8 text is not modelled.

## Findings

| source | as written | input that shows it | evidently intended | confidence | as-written member | corrected member |
|---|---|---|---|---|---|---|
| gnzmailer.php:224 | the From header puts a closing quote after the display name but no opening one | display name "Ana", address "ana@example.com" gives `From: Ana" <ana@example.com>` | `From: "Ana" <ana@example.com>`, a quoted display name | high, not executed | Mime.FromHeaderAsWritten (with Mime.FromHeaderAsWrittenUnbalanced, Mime.FromHeaderAsWrittenExample, Mime.HeaderBlockAsWritten) | Mime.FromHeader (with Mime.FromHeaderBalanced; used by Mime.HeaderLines and Mime.Build) |
