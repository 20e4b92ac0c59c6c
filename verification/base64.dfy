/** `base64_encode` (section 4 of RFC 4648, standard alphabet with '=' padding)
    and `chunk_split`, which the message builder uses for attachments and the
    session for the AUTH LOGIN credentials. A decoder is defined alongside as the
    encoder's partner, so that the round trip can be stated. */
module Base64 {
  import opened Options
  import opened PhpText

  type byte = x: int | 0 <= x < 256

  /** The bytes of a model string. Model strings stand for PHP byte strings,
      so every char is below 256 and the reduction is the identity on them. */
  function Latin1(s: string): (r: seq<byte>)
    ensures |r| == |s|
  {
    seq(|s|, i requires 0 <= i < |s| => (s[i] as int) % 256)
  }

  /* ---------------------------------------------------------------------- */
  /* The alphabet (Table 1 of RFC 4648)                                       */
  /* ---------------------------------------------------------------------- */

  function CharOf(v: int): char
    requires 0 <= v < 64
  {
    if v < 26 then ('A' as int + v) as char
    else if v < 52 then ('a' as int + v - 26) as char
    else if v < 62 then ('0' as int + v - 52) as char
    else if v == 62 then '+'
    else '/'
  }

  predicate InAlphabet(c: char) {
    ('A' <= c <= 'Z') || ('a' <= c <= 'z') || ('0' <= c <= '9') || c == '+' || c == '/'
  }

  function ValueOf(c: char): (v: int)
    requires InAlphabet(c)
    ensures 0 <= v < 64
  {
    if 'A' <= c <= 'Z' then c as int - 'A' as int
    else if 'a' <= c <= 'z' then c as int - 'a' as int + 26
    else if '0' <= c <= '9' then c as int - '0' as int + 52
    else if c == '+' then 62
    else 63
  }

  /** Each 6-bit value has its own character, and the character gives it back. */
  lemma ValueOfCharOf(v: int)
    requires 0 <= v < 64
    ensures InAlphabet(CharOf(v)) && ValueOf(CharOf(v)) == v
  {
  }

  /* ---------------------------------------------------------------------- */
  /* Encoding                                                                 */
  /* ---------------------------------------------------------------------- */

  /** A character that can appear in encoded text. */
  predicate EncodedChar(c: char) {
    InAlphabet(c) || c == '='
  }

  /** Three bytes as four characters. */
  function Group(a: byte, b: byte, c: byte): string {
    [CharOf(a / 4), CharOf((a % 4) * 16 + b / 16), CharOf((b % 16) * 4 + c / 64), CharOf(c % 64)]
  }

  /** A final single byte, padded with "==". */
  function PadTwo(a: byte): string {
    [CharOf(a / 4), CharOf((a % 4) * 16), '=', '=']
  }

  /** A final pair of bytes, padded with "=". */
  function PadOne(a: byte, b: byte): string {
    [CharOf(a / 4), CharOf((a % 4) * 16 + b / 16), CharOf((b % 16) * 4), '=']
  }

  /** `base64_encode`: every 3 bytes become 4 characters; a final group of 1 or 2
      bytes is padded with "==" or "=". */
  function Encode(bs: seq<byte>): (r: string)
    ensures |r| == 4 * ((|bs| + 2) / 3)
    ensures forall i :: 0 <= i < |r| ==> EncodedChar(r[i])
    decreases |bs|
  {
    if |bs| == 0 then ""
    else if |bs| == 1 then PadTwo(bs[0])
    else if |bs| == 2 then PadOne(bs[0], bs[1])
    else Group(bs[0], bs[1], bs[2]) + Encode(bs[3..])
  }

  /* ---------------------------------------------------------------------- */
  /* Decoding, the partner of Encode                                          */
  /* ---------------------------------------------------------------------- */

  /** Decodes padded base64 text; None when the text is not of that form. */
  function Decode(s: string): Option<seq<byte>>
    decreases |s|
  {
    if |s| == 0 then Some([])
    else if |s| < 4 || !InAlphabet(s[0]) || !InAlphabet(s[1]) then None
    else
      var v0, v1 := ValueOf(s[0]), ValueOf(s[1]);
      if |s| == 4 && s[2] == '=' && s[3] == '=' then
        Some([v0 * 4 + v1 / 16])
      else if !InAlphabet(s[2]) then None
      else
        var v2 := ValueOf(s[2]);
        if |s| == 4 && s[3] == '=' then
          Some([v0 * 4 + v1 / 16, (v1 % 16) * 16 + v2 / 4])
        else if !InAlphabet(s[3]) then None
        else
          var v3 := ValueOf(s[3]);
          match Decode(s[4..])
          case None => None
          case Some(rest) =>
            Some([v0 * 4 + v1 / 16, (v1 % 16) * 16 + v2 / 4, (v2 % 4) * 64 + v3] + rest)
  }

  /** Cutting a 6- or 8-bit value at a 16, 4 or 64 boundary and joining the
      halves again. */
  lemma Recombine16(q: int, y: int)
    requires 0 <= q && 0 <= y < 16
    ensures (q * 16 + y) / 16 == q && (q * 16 + y) % 16 == y
  {
  }

  lemma Recombine4(q: int, y: int)
    requires 0 <= q && 0 <= y < 4
    ensures (q * 4 + y) / 4 == q && (q * 4 + y) % 4 == y
  {
  }

  lemma Recombine64(q: int, y: int)
    requires 0 <= q && 0 <= y < 64
    ensures (q * 64 + y) / 64 == q && (q * 64 + y) % 64 == y
  {
  }

  lemma DecodePadTwo(a: byte)
    ensures Decode(PadTwo(a)) == Some([a])
  {
    ValueOfCharOf(a / 4);
    ValueOfCharOf((a % 4) * 16);
    Recombine16(a % 4, 0);
  }

  lemma DecodePadOne(a: byte, b: byte)
    ensures Decode(PadOne(a, b)) == Some([a, b])
  {
    ValueOfCharOf(a / 4);
    ValueOfCharOf((a % 4) * 16 + b / 16);
    ValueOfCharOf((b % 16) * 4);
    Recombine16(a % 4, b / 16);
    Recombine4(b % 16, 0);
  }

  lemma DecodeGroup(a: byte, b: byte, c: byte, t: string)
    ensures Decode(Group(a, b, c) + t) ==
      match Decode(t)
      case None => None
      case Some(rest) => Some([a, b, c] + rest)
  {
    var s := Group(a, b, c) + t;
    GroupValues(a, b, c);
    GroupBytes(a, b, c);
    assert s[..4] == Group(a, b, c) && s[4..] == t;
  }

  /** The four characters of a group are in the alphabet and carry the 6-bit
      slices of the three bytes. */
  lemma GroupValues(a: byte, b: byte, c: byte)
    ensures var g := Group(a, b, c);
      && InAlphabet(g[0]) && InAlphabet(g[1]) && InAlphabet(g[2]) && InAlphabet(g[3])
      && ValueOf(g[0]) == a / 4 && ValueOf(g[1]) == (a % 4) * 16 + b / 16
      && ValueOf(g[2]) == (b % 16) * 4 + c / 64 && ValueOf(g[3]) == c % 64
  {
    ValueOfCharOf(a / 4);
    ValueOfCharOf((a % 4) * 16 + b / 16);
    ValueOfCharOf((b % 16) * 4 + c / 64);
    ValueOfCharOf(c % 64);
  }

  /** Joining the 6-bit slices again gives the three bytes. */
  lemma GroupBytes(a: byte, b: byte, c: byte)
    ensures var v0, v1, v2, v3 := a / 4, (a % 4) * 16 + b / 16, (b % 16) * 4 + c / 64, c % 64;
      && v0 * 4 + v1 / 16 == a
      && (v1 % 16) * 16 + v2 / 4 == b
      && (v2 % 4) * 64 + v3 == c
  {
    Recombine16(a % 4, b / 16);
    Recombine4(b % 16, c / 64);
    Recombine64(c / 64, c % 64);
  }

  lemma {:induction false} DecodeEncode(bs: seq<byte>)
    ensures Decode(Encode(bs)) == Some(bs)
    decreases |bs|
  {
    if |bs| == 1 {
      DecodeEncodeOne(bs);
    } else if |bs| == 2 {
      DecodeEncodeTwo(bs);
    } else if |bs| >= 3 {
      DecodeEncode(bs[3..]);
      DecodeEncodeStep(bs);
    }
  }

  /** A full group in front of text that already decodes. */
  lemma DecodeEncodeStep(bs: seq<byte>)
    requires |bs| >= 3 && Decode(Encode(bs[3..])) == Some(bs[3..])
    ensures Decode(Encode(bs)) == Some(bs)
  {
    EncodeGroup(bs);
    DecodeGroupThen(bs[0], bs[1], bs[2], bs[3..], Encode(bs[3..]));
    ConsThree(bs);
  }

  lemma ConsThree<T>(s: seq<T>)
    requires |s| >= 3
    ensures [s[0], s[1], s[2]] + s[3..] == s
  {
  }

  lemma DecodeEncodeOne(bs: seq<byte>)
    requires |bs| == 1
    ensures Decode(Encode(bs)) == Some(bs)
  {
    DecodePadTwo(bs[0]);
    assert [bs[0]] == bs;
  }

  lemma DecodeEncodeTwo(bs: seq<byte>)
    requires |bs| == 2
    ensures Decode(Encode(bs)) == Some(bs)
  {
    DecodePadOne(bs[0], bs[1]);
    assert [bs[0], bs[1]] == bs;
  }

  lemma EncodeGroup(bs: seq<byte>)
    requires |bs| >= 3
    ensures Encode(bs) == Group(bs[0], bs[1], bs[2]) + Encode(bs[3..])
  {
  }

  lemma DecodeGroupThen(a: byte, b: byte, c: byte, rest: seq<byte>, t: string)
    requires Decode(t) == Some(rest)
    ensures Decode(Group(a, b, c) + t) == Some([a, b, c] + rest)
  {
    DecodeGroup(a, b, c, t);
  }

  /* ---------------------------------------------------------------------- */
  /* Line wrapping                                                            */
  /* ---------------------------------------------------------------------- */

  /** The line length of `chunk_split`'s default, 76 (section 6.8 of RFC 2045). */
  const LineLength: nat := 76

  /** The pieces `chunk_split` cuts `s` into: full 76-character pieces and one
      last piece of at most 76 (the empty piece when `s` is empty). */
  function Chunks(s: string): (r: seq<string>)
    ensures |r| >= 1
    ensures Concat(r) == s
    ensures forall i :: 0 <= i < |r| ==> |r[i]| <= LineLength
    ensures forall i :: 0 <= i < |r| - 1 ==> |r[i]| == LineLength
    decreases |s|
  {
    if |s| <= LineLength then [s]
    else
      var rest := Chunks(s[LineLength..]);
      assert ([s[..LineLength]] + rest)[1..] == rest;
      [s[..LineLength]] + rest
  }

  /** Every line followed by CRLF. */
  function Terminate(lines: seq<string>): string
    decreases |lines|
  {
    if |lines| == 0 then "" else lines[0] + CRLF + Terminate(lines[1..])
  }

  /** `chunk_split($s)`: `s` cut into 76-character lines, each one ended by CRLF,
      the last one included. */
  function ChunkSplit(s: string): string {
    Terminate(Chunks(s))
  }

  /** The text with every CR and LF taken out. */
  function Unwrap(t: string): (r: string)
    ensures |r| <= |t|
    decreases |t|
  {
    if |t| == 0 then ""
    else (if t[0] == '\r' || t[0] == '\n' then "" else [t[0]]) + Unwrap(t[1..])
  }

  predicate NoLineBreak(s: string) {
    forall i :: 0 <= i < |s| ==> s[i] != '\r' && s[i] != '\n'
  }

  lemma {:induction false} UnwrapAppend(a: string, b: string)
    ensures Unwrap(a + b) == Unwrap(a) + Unwrap(b)
    decreases |a|
  {
    if |a| > 0 {
      assert (a + b)[1..] == a[1..] + b;
      UnwrapAppend(a[1..], b);
    } else {
      assert a + b == b;
    }
  }

  lemma {:induction false} UnwrapPlain(s: string)
    requires NoLineBreak(s)
    ensures Unwrap(s) == s
    decreases |s|
  {
    if |s| > 0 {
      UnwrapPlain(s[1..]);
      assert [s[0]] + s[1..] == s;
    }
  }

  lemma {:induction false} UnwrapTerminate(lines: seq<string>)
    requires forall i :: 0 <= i < |lines| ==> NoLineBreak(lines[i])
    ensures Unwrap(Terminate(lines)) == Concat(lines)
    decreases |lines|
  {
    if |lines| > 0 {
      var head := lines[0] + CRLF;
      var tail := Terminate(lines[1..]);
      assert Terminate(lines) == head + tail;
      assert Unwrap(head) == lines[0] by {
        UnwrapAppend(lines[0], CRLF);
        UnwrapPlain(lines[0]);
        UnwrapBreak();
      }
      UnwrapAppend(head, tail);
      UnwrapTerminate(lines[1..]);
    }
  }

  /** The line break itself unwraps to nothing. */
  lemma UnwrapBreak()
    ensures Unwrap(CRLF) == ""
  {
    assert CRLF[1..][1..] == "";
  }

  lemma {:induction false} ChunksNoLineBreak(s: string)
    requires NoLineBreak(s)
    ensures forall i :: 0 <= i < |Chunks(s)| ==> NoLineBreak(Chunks(s)[i])
    decreases |s|
  {
    if |s| > LineLength {
      ChunksNoLineBreak(s[LineLength..]);
    }
  }

  /** Removing the line breaks `chunk_split` inserts gives the text back. */
  lemma UnwrapChunkSplit(s: string)
    requires NoLineBreak(s)
    ensures Unwrap(ChunkSplit(s)) == s
  {
    ChunksNoLineBreak(s);
    UnwrapTerminate(Chunks(s));
  }

  /** The wrapped base64 text of any byte string decodes to that byte string. */
  lemma WrappedRoundTrip(bs: seq<byte>)
    ensures Decode(Unwrap(ChunkSplit(Encode(bs)))) == Some(bs)
  {
    UnwrapChunkSplit(Encode(bs));
    DecodeEncode(bs);
  }
}
