/**
 * Worked examples of the decoder of module Decoder on whole responses: a
 * chunked body read fragment by fragment, a response with a Content-Length
 * read in one call, and a response whose headers end mid-line.
 */
module Examples {
  import opened Wrappers
  import opened Libc
  import opened Decoder
  import opened Properties

  /** The chunked body "4 Wiki, 5 pedia, 0" as it sits in the buffer, followed by the NUL. */
  const WIKIPEDIA: seq<char> := "4\r\nWiki\r\n5\r\npedia\r\n0\r\n\r\n\0"

  lemma WikipediaWindow()
    ensures |WIKIPEDIA| == 25 && Window(WIKIPEDIA, 0, 24)
    ensures WIKIPEDIA[3..7] == "Wiki" && WIKIPEDIA[12..17] == "pedia"
  {
    var b := WIKIPEDIA;
    assert b[3..7] == [b[3], b[4], b[5], b[6]];
    assert b[12..17] == [b[12], b[13], b[14], b[15], b[16]];
  }

  /** The first call reads the size line "4" and delivers "Wiki", its CRLF cut. */
  lemma WikipediaFirst(f: Fields)
    requires f.inContent && f.chunk == 0
    ensures Window(WIKIPEDIA, 0, 24)
    ensures Content(f, WIKIPEDIA, 0, 24) == Parse(Some(9), f.(content := Some(3), length := 4, chunk := 0))
  {
    var b := WIKIPEDIA;
    assert Hex(4) == "4";
    assert b[0..3] == Hex(4) + "\r\n";
    SizeLineOfHex(b, 0, 4);
    SizeLine(f, b, 0, 24, 2, 4);
  }

  /** The second call reads the size line "5" and delivers "pedia". */
  lemma WikipediaSecond(f: Fields)
    requires f.inContent && f.chunk == 0
    ensures Window(WIKIPEDIA, 9, 24)
    ensures Content(f, WIKIPEDIA, 9, 24) == Parse(Some(19), f.(content := Some(12), length := 5, chunk := 0))
  {
    var b := WIKIPEDIA;
    assert Hex(5) == "5";
    assert b[9..12] == Hex(5) + "\r\n";
    SizeLineOfHex(b, 9, 5);
    SizeLine(f, b, 9, 24, 11, 5);
  }

  /** The third call reads the last chunk, of size 0, and delivers the empty fragment at the end of the window. */
  lemma WikipediaLast(f: Fields)
    requires f.inContent && f.chunk == 0
    ensures Window(WIKIPEDIA, 19, 24)
    ensures Content(f, WIKIPEDIA, 19, 24) == Parse(Some(24), f.(content := Some(22), length := 0, chunk := 0))
  {
    var b := WIKIPEDIA;
    assert Hex(0) == "0";
    assert b[19..22] == Hex(0) + "\r\n";
    SizeLineOfHex(b, 19, 0);
    SizeLine(f, b, 19, 24, 21, 0);
  }

  /**
   * With the body in one window, three parse calls deliver "Wiki", then
   * "pedia", then the empty fragment of the last chunk, and stop at the end of
   * the window.
   */
  lemma WikipediaChunks(f: Fields)
    requires f.inContent && f.chunk == 0
    ensures Window(WIKIPEDIA, 0, 24)
    ensures var p1 := Content(f, WIKIPEDIA, 0, 24);
      && p1.next == Some(9) && p1.fields.content == Some(3) && WIKIPEDIA[3..3 + p1.fields.length] == "Wiki"
      && var p2 := Content(p1.fields, WIKIPEDIA, 9, 24);
      && p2.next == Some(19) && p2.fields.content == Some(12) && WIKIPEDIA[12..12 + p2.fields.length] == "pedia"
      && var p3 := Content(p2.fields, WIKIPEDIA, 19, 24);
      && p3.next == Some(24) && p3.fields.length == 0 && p3.fields.chunk == 0
  {
    WikipediaWindow();
    WikipediaFirst(f);
    var f1 := f.(content := Some(3), length := 4, chunk := 0);
    WikipediaSecond(f1);
    WikipediaLast(f1.(content := Some(12), length := 5, chunk := 0));
  }

  // ---------------------------------------------------------------------------
  // A response with a Content-Length

  /** The fields as http_read has them before its first parse. */
  const STARTED: Fields := Fields(0, -1, None, 0, false, -1)

  /** The buffer begins with the status line "HTTP/1.1 200 OK" and its CRLF. */
  ghost predicate HoldsStatus(b: seq<char>) {
    |b| >= 17 && b[0..16] == "HTTP/1.1 200 OK\r" && b[16] == '\n'
  }

  /** The buffer holds "HTTP/1.1 200 OK\r\nContent-Length: 5\r\n\r\nhello", then the NUL. */
  ghost predicate HoldsResponse(b: seq<char>) {
    && |b| == 44 && HoldsStatus(b)
    && b[17..35] == "Content-Length: 5\r" && b[35] == '\n'
    && b[36] == '\r' && b[37] == '\n'
    && b[38..43] == "hello" && b[43] == NUL
  }

  /** The buffer holds "HTTP/1.1 200 OK\r\nContent-Len", then the NUL: the response cut off inside its header line. */
  ghost predicate HoldsPartial(b: seq<char>) {
    |b| == 29 && HoldsStatus(b) && b[17..28] == "Content-Len" && b[28] == NUL
  }

  lemma StatusLineEnds(b: seq<char>)
    requires HoldsStatus(b)
    ensures StrChrAt(b, 0, '\n') == Some(16)
  {
    LineEnds(b, 0, 16, "HTTP/1.1 200 OK\r");
  }

  lemma StatusLineAccepted(b: seq<char>)
    requires HoldsStatus(b)
    ensures StatusAt(b, 0, 16)
  {
    assert b[0] == b[0..16][0];
  }

  lemma StatusCode(b: seq<char>)
    requires HoldsStatus(b)
    ensures AtoiAt(b, 8) == 200
  {
    assert Decimal(200) == "200";
    assert b[9..12] == b[0..16][9..12];
    AtoiAtDecimal(b, 8, 9, 200);
  }

  /** The status line is consumed and sets the code 200. */
  lemma StatusRead(b: seq<char>, eod: nat)
    requires HoldsStatus(b) && Window(b, 0, eod)
    ensures Message(STARTED, b, 0, eod) == Message(STARTED.(code := 200), b, 17, eod)
  {
    StatusLineEnds(b);
    StatusLineAccepted(b);
    StatusCode(b);
    MessageStatus(STARTED, b, 0, eod, 16);
  }

  lemma LengthLineEnds(b: seq<char>)
    requires HoldsResponse(b)
    ensures StrChrAt(b, 17, '\n') == Some(35)
  {
    LineEnds(b, 17, 35, "Content-Length: 5\r");
  }

  lemma LengthLineRead(b: seq<char>, f: Fields)
    requires HoldsResponse(b)
    ensures HeaderAt(f, b, 17, 35) == f.(headerLength := 5)
  {
    assert Decimal(5) == "5";
    assert "Content-Length: 5\r" == "Content-Length" + ": " + Decimal(5) + "\r";
    ContentLengthLine(f, b, 17, 35, 5);
  }

  /** "Content-Length:5", with no blank after the ':', still sets header.length to 5. */
  lemma CompactLengthLine(f: Fields, b: seq<char>, bod: nat, lf: nat)
    requires bod <= lf <= |b| && b[bod..lf] == "Content-Length:5\r"
    ensures HeaderAt(f, b, bod, lf) == f.(headerLength := 5)
  {
    assert "Content-Length:5\r" == [] + "Content-Length" + [] + ":" + [] + "5" + "\r";
    HeaderLine(f, b, bod, lf, [], "Content-Length", [], [], "5", "\r");
    assert Decimal(5) == "5" && Decimal(5) + [] == "5";
    AtoiDecimal(5, []);
  }

  /** The parts of the line of SpacedChunkedLine are of the shapes HeaderLine asks for. */
  lemma SpacedParts()
    ensures "  Transfer-Encoding :\tChunked\r" == "  " + "Transfer-Encoding" + " " + ":" + "\t" + "Chunked" + "\r"
    ensures IsDelims("  ") && IsToken("Transfer-Encoding") && ':' !in "Transfer-Encoding"
    ensures EndsToken(" ") && ':' !in " " && NUL !in " "
    ensures IsDelims("\t") && IsToken("Chunked") && EndsToken("\r")
    ensures CaseEqAt("Transfer-Encoding", 0, 17, "Transfer-Encoding") && CaseEqAt("Chunked", 0, 7, "chunked")
  {
    assert LowerChar('C') == 'c';
  }

  /** Blanks before the name, before the ':' and after it are skipped, and "Chunked" matches in any case. */
  lemma SpacedChunkedLine(f: Fields, b: seq<char>, bod: nat, lf: nat)
    requires bod <= lf <= |b| && b[bod..lf] == "  Transfer-Encoding :\tChunked\r"
    ensures HeaderAt(f, b, bod, lf) == f.(chunk := 0)
  {
    SpacedParts();
    HeaderLine(f, b, bod, lf, "  ", "Transfer-Encoding", " ", "\t", "Chunked", "\r");
  }

  /**
   * "Transfer-Encoding: gzip, chunked" is not taken as chunked: strtok cuts the
   * value at its first blank, so the value compared is "gzip,".
   */
  lemma ListedCodingLine(f: Fields, b: seq<char>, bod: nat, lf: nat)
    requires bod <= lf <= |b| && b[bod..lf] == "Transfer-Encoding: gzip, chunked\r"
    ensures HeaderAt(f, b, bod, lf) == f
  {
    assert "Transfer-Encoding: gzip, chunked\r" == [] + "Transfer-Encoding" + [] + ":" + " " + "gzip," + " chunked\r";
    HeaderLine(f, b, bod, lf, [], "Transfer-Encoding", [], " ", "gzip,", " chunked\r");
  }

  /** After the Content-Length line, the blank line ends the headers and the body is parsed in the same call. */
  lemma HeadersRead(b: seq<char>, f: Fields)
    requires HoldsResponse(b) && f.code != 0 && !f.inContent
    ensures Window(b, 17, 43)
    ensures Message(f, b, 17, 43) == Message(f.(headerLength := 5, inContent := true), b, 38, 43)
  {
    LengthLineEnds(b);
    MessageHeaders(f, b, 17, 43, 35);
    HeadersNext(f, b, 17, 35, 43);
    LengthLineRead(b, f);
    StrChrAtFinds(b, 36, 37, '\n');
    HeadersEnd(f.(headerLength := 5), b, 36, 37, 43);
  }

  /**
   * Parsed in one window from the start, the response gives status 200,
   * header.length 5 and the whole body "hello" as the first fragment, so that
   * the delivered total reaches header.length and the next http_read returns 0.
   */
  lemma ResponseInOneWindow(b: seq<char>)
    requires HoldsResponse(b)
    ensures Window(b, 0, 43)
    ensures Message(STARTED, b, 0, 43) == Parse(Some(43), Fields(200, 5, Some(38), 5, true, -1))
    ensures b[38..43] == "hello"
  {
    StatusRead(b, 43);
    HeadersRead(b, STARTED.(code := 200));
    ContentPlain(STARTED.(code := 200, headerLength := 5, inContent := true), b, 38, 43);
  }

  /** The status line is read and the incomplete header line is left for the next call. */
  lemma PartialHeaders(b: seq<char>)
    requires HoldsPartial(b)
    ensures Window(b, 0, 28)
    ensures Message(STARTED, b, 0, 28) == Parse(Some(17), STARTED.(code := 200))
  {
    StatusRead(b, 28);
    forall i | 17 <= i < 28 ensures b[i] != '\n' && b[i] != NUL {
      assert b[i] == b[17..28][i - 17];
    }
    StrChrAtMisses(b, 17, 28, '\n');
  }

  /** The buffer begins with the line "FTP/1.1 200 OK" and its CRLF. */
  ghost predicate HoldsFtpStatus(b: seq<char>) {
    |b| >= 16 && b[0..15] == "FTP/1.1 200 OK\r" && b[15] == '\n'
  }

  /** A status line of another protocol makes the parse fail (NULL), and the fields stay as they were. */
  lemma FtpStatus(b: seq<char>, eod: nat)
    requires HoldsFtpStatus(b) && Window(b, 0, eod)
    ensures Message(STARTED, b, 0, eod) == Parse(None, STARTED)
  {
    LineEnds(b, 0, 15, "FTP/1.1 200 OK\r");
    assert b[0] == b[0..15][0];
    MessageBadStatus(STARTED, b, 0, eod, 15);
  }
}
