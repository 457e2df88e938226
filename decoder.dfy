/**
 * The response decoder of http.c as pure functions: http_cut_trailing_crlf,
 * http_parse_content and http_parse_message, each applied to the buffer and a
 * window of it. These are the specifications that the imperative model in
 * module Http is proved against.
 *
 * As in the C code, a window is given by the buffer `b` and two positions: the
 * parse position `bod` and the end of the live bytes `eod`, where the read loop
 * keeps a NUL. Positions in the results are positions in the buffer, as the C
 * pointers are.
 */
module Decoder {
  import opened Wrappers
  import opened Libc

  /** sizeof(state.buf) */
  const BUF_SIZE: nat := 4096
  /** state.size: one byte of the buffer is kept for the terminating NUL */
  const CAPACITY: nat := BUF_SIZE - 1

  /**
   * The fields of struct http_message that the parser reads and writes:
   * header.code, header.length, content (None is NULL), length,
   * state.in_content and state.chunk.
   */
  datatype Fields = Fields(
    code: int,
    headerLength: int,
    content: Option<nat>,
    length: int,
    inContent: bool,
    chunk: int)

  /** What a parse call returns: the position it parsed up to (None is NULL) and the fields after it. */
  datatype Parse = Parse(next: Option<nat>, fields: Fields)

  /** All bytes of a sequence of reads, in order. */
  function Flatten(ss: seq<seq<char>>): seq<char> {
    if ss == [] then [] else ss[0] + Flatten(ss[1..])
  }

  /** The live bytes b[bod..eod], followed by the terminator. */
  predicate Window(b: seq<char>, bod: nat, eod: nat) {
    bod <= eod < |b| && b[eod] == NUL
  }

  /** A strchr from the parse position never runs past the terminator at `eod`. */
  lemma FoundInWindow(b: seq<char>, bod: nat, eod: nat, c: char)
    requires Window(b, bod, eod) && c != NUL && StrChrAt(b, bod, c).Some?
    ensures StrChrAt(b, bod, c).value < eod
  {
    var v := StrChrAt(b, bod, c).value;
    assert v <= eod || Avoids(b, eod, c);
  }

  // ---------------------------------------------------------------------------
  // http_cut_trailing_crlf

  /**
   * http_cut_trailing_crlf (http.c:176-185) as written: the fragment length
   * after it, where `chunk` is the number of bytes of the current chunk (payload
   * and CRLF) still to come after the fragment.
   */
  function CutAsWritten(chunk: int, length: int): (r: int)
    ensures length >= 0 ==> 0 <= r <= length
  {
    if chunk == 1 && length > 0 then length - 1
    else if chunk == 0 && length > 1 then length - 2
    else length
  }

  /**
   * http_cut_trailing_crlf as evidently intended: a fragment that completes its
   * chunk loses the trailing CRLF, or the part of it that it holds; the only
   * change from CutAsWritten is a one-byte fragment that completes the chunk,
   * which is the chunk's LF and is cut too.
   */
  function Cut(chunk: int, length: int): (r: int)
    ensures length >= 0 ==> 0 <= r <= length
  {
    if chunk == 1 && length > 0 then length - 1
    else if chunk == 0 && length > 1 then length - 2
    else if chunk == 0 && length == 1 then 0
    else length
  }

  // ---------------------------------------------------------------------------
  // http_parse_content

  /** The framing facts every parse result satisfies. */
  ghost predicate Sound(f: Fields, bod: nat, eod: nat, p: Parse) {
    && (p.next.Some? ==> bod <= p.next.value <= eod)
    && (p.next.None? ==> p.fields == f)
    && (bod < eod && p.next == Some(bod) ==> p.fields == f)
    && (f.chunk >= -1 ==> p.fields.chunk >= -1)
    && (f.length >= 0 ==> p.fields.length >= 0)
    && (f.length == 0 && p.fields.length > 0 ==>
          && p.next.Some? && p.fields.content.Some?
          && bod <= p.fields.content.value
          && p.fields.content.value + p.fields.length <= p.next.value)
    && (p.fields.length > 0 && p.fields.length != f.length ==> p.fields.content.Some?)
  }

  /**
   * The payload and CRLF of a chunk whose size line has just been read
   * (http.c:247-261): `f.chunk` bytes are expected from `from` on, and as many
   * of them as the window [from, end) holds make the fragment.
   */
  function ChunkData(f: Fields, from: nat, end: nat): (p: Parse)
    requires from <= end && f.chunk >= 2
    ensures p.fields == f.(content := Some(from), length := p.fields.length, chunk := p.fields.chunk)
  {
    var rest := end - from;
    if f.chunk < rest then
      // the chunk ends in the window and the next size line follows
      Parse(Some(from + f.chunk), f.(content := Some(from), length := Cut(0, f.chunk), chunk := 0))
    else
      // the window ends inside the chunk
      Parse(Some(end), f.(content := Some(from), length := Cut(f.chunk - rest, rest), chunk := f.chunk - rest))
  }

  /**
   * The chunk-size line at the parse position (http.c:228-262), entered with
   * state.chunk == 0: the hexadecimal size S is read (0 when there is no digit,
   * since sscanf then assigns nothing), and S + 2 bytes of payload and CRLF are
   * expected after the line's LF.
   */
  function ChunkHeader(f: Fields, b: seq<char>, bod: nat, eod: nat): (p: Parse)
    requires Window(b, bod, eod) && f.chunk == 0
    ensures p.fields == f.(content := p.fields.content, length := p.fields.length, chunk := p.fields.chunk)
  {
    match StrChrAt(b, bod, '\n')
    case None => Parse(Some(bod), f)
    case Some(eoc) =>
      FoundInWindow(b, bod, eod, '\n');
      ChunkData(f.(chunk := ScanHexAt(b, bod, eoc).GetOr(0) + 2), eoc + 1, eod)
  }

  /**
   * http_parse_content (http.c:194-277). With state.chunk == -1 the body is not
   * chunked and the whole window is the fragment. Otherwise state.chunk is the
   * number of bytes of the current chunk (payload and CRLF) still to come, and
   * 0 means a chunk-size line is next.
   */
  function Content(f: Fields, b: seq<char>, bod: nat, eod: nat): (p: Parse)
    requires Window(b, bod, eod)
    ensures p.next.Some?
    ensures f.chunk == -1 ==> p.fields.chunk == -1
    ensures p.fields == f.(content := p.fields.content, length := p.fields.length, chunk := p.fields.chunk)
  {
    var len := eod - bod;
    if f.chunk > -1 && f.chunk < len then
      if f.chunk == 1 then
        // the LF left over from the previous chunk's CRLF
        Parse(Some(bod + 1), f.(length := 0, chunk := 0))
      else if f.chunk > 1 then
        // the rest of the current chunk is in the window
        Parse(Some(bod + f.chunk), f.(content := Some(bod), length := Cut(0, f.chunk), chunk := 0))
      else
        ChunkHeader(f, b, bod, eod)
    else
      // the whole window belongs to the body or to the current chunk
      var chunk := if f.chunk > -1 then f.chunk - len else f.chunk;
      Parse(Some(eod), f.(content := Some(bod), length := Cut(chunk, len), chunk := chunk))
  }

  // ---------------------------------------------------------------------------
  // http_parse_message

  /** The status line test of http.c:306-311: "HTTP/1." followed by '0' or '1'. */
  predicate StatusLine(line: seq<char>) {
    |line| >= 8 && line[..7] == "HTTP/1." && (line[7] == '0' || line[7] == '1')
  }

  /** StatusLine of the line b[bod..lf], read byte by byte as strncmp does. */
  predicate StatusAt(b: seq<char>, bod: nat, lf: nat)
    requires bod <= lf <= |b|
  {
    && bod + 8 <= lf
    && b[bod] == 'H' && b[bod + 1] == 'T' && b[bod + 2] == 'T' && b[bod + 3] == 'P'
    && b[bod + 4] == '/' && b[bod + 5] == '1' && b[bod + 6] == '.'
    && (b[bod + 7] == '0' || b[bod + 7] == '1')
  }

  lemma StatusAtLine(b: seq<char>, bod: nat, lf: nat)
    requires bod <= lf <= |b|
    ensures StatusAt(b, bod, lf) == StatusLine(b[bod..lf])
  {
    var line := b[bod..lf];
    if StatusLine(line) {
      assert line[..7][0] == 'H' && line[..7][6] == '.';
      assert line[..7][1] == 'T' && line[..7][2] == 'T' && line[..7][3] == 'P';
      assert line[..7][4] == '/' && line[..7][5] == '1';
    }
    if StatusAt(b, bod, lf) {
      assert line[..7] == "HTTP/1.";
    }
  }

  /** The end of the headers, http.c:327: the line b[bod..lf] is empty or a lone CR. */
  predicate BlankAt(b: seq<char>, bod: nat, lf: nat)
    requires bod <= lf <= |b|
  {
    lf == bod || (lf == bod + 1 && b[bod] == '\r')
  }

  lemma BlankAtLine(b: seq<char>, bod: nat, lf: nat)
    requires bod <= lf <= |b|
    ensures BlankAt(b, bod, lf) <==> (b[bod..lf] == [] || b[bod..lf] == "\r")
  {
    if lf == bod + 1 {
      assert b[bod..lf] == [b[bod]];
    }
  }

  /** The header that selects chunked framing (http.c:352-355), its name at b[ns..ne] and its value at b[vs..ve]. */
  predicate ChunkedHeader(b: seq<char>, ns: nat, ne: nat, vs: nat, ve: nat)
    requires ns <= ne <= |b| && vs <= ve <= |b|
  {
    CaseEqAt(b, ns, ne, "Transfer-Encoding") && CaseEqAt(b, vs, ve, "chunked")
  }

  /** The header that gives the body length (http.c:356-357), its name at b[ns..ne]. */
  predicate LengthHeader(b: seq<char>, ns: nat, ne: nat)
    requires ns <= ne <= |b|
  {
    CaseEqAt(b, ns, ne, "Content-Length")
  }

  /**
   * strchr(p, ':') on the header line b[bod..lf] once its LF is cut: the first
   * ':' before the end of the line or an earlier NUL.
   */
  function Colon(b: seq<char>, bod: nat, lf: nat): (r: Option<nat>)
    requires bod <= lf <= |b|
    ensures r.Some? ==> bod <= r.value < lf && b[r.value] == ':'
  {
    var c := Span(b, bod, lf, Besides(':'));
    if c < lf && b[c] == ':' then Some(c) else None
  }

  /**
   * Colon finds the first ':' of the line, with no terminator before it; when
   * it finds none, every ':' of the line lies after a NUL, where strchr stops.
   */
  lemma ColonFirst(b: seq<char>, bod: nat, lf: nat)
    requires bod <= lf <= |b|
    ensures Colon(b, bod, lf).Some? ==>
      forall i | bod <= i < Colon(b, bod, lf).value :: b[i] != ':' && b[i] != NUL
    ensures Colon(b, bod, lf).None? ==> forall i | bod <= i < lf :: b[i] != ':' || NUL in b[bod..i]
  {
    var c := Span(b, bod, lf, Besides(':'));
    forall i | bod <= i < c ensures b[i] != ':' && b[i] != NUL {
      SpanAccepts(b, bod, lf, Besides(':'), i);
    }
    if c < lf && b[c] != ':' {
      forall i | c < i < lf ensures NUL in b[bod..i] {
        assert b[bod..i][c - bod] == b[c];
      }
    }
  }

  /**
   * One header line b[bod..lf], its LF already cut (http.c:339-358): a line
   * without ':' is ignored; the name is the first token before the first ':'
   * and the value the first token after it, a token being cut by the
   * delimiters " \t\r\n" (strspn, strtok); "Transfer-Encoding: chunked" selects
   * chunked framing and "Content-Length" sets header.length, the names and
   * "chunked" compared without regard to case.
   */
  function HeaderAt(f: Fields, b: seq<char>, bod: nat, lf: nat): (g: Fields)
    requires bod <= lf <= |b|
    ensures g == f.(chunk := g.chunk, headerLength := g.headerLength)
    ensures g.chunk == f.chunk || g.chunk == 0
  {
    match Colon(b, bod, lf)
    case None => f
    case Some(c) => HeaderNamed(f, b, bod, c, lf)
  }

  /** A header line b[bod..lf] whose first ':' is at `c`: its name and value tokens are compared. */
  function HeaderNamed(f: Fields, b: seq<char>, bod: nat, c: nat, lf: nat): (g: Fields)
    requires bod <= c < lf <= |b|
    ensures g == f.(chunk := g.chunk, headerLength := g.headerLength)
    ensures g.chunk == f.chunk || g.chunk == 0
  {
    var ns := Span(b, bod, c, Delim);
    var ne := Span(b, ns, c, TokenChar);
    var vs := Span(b, c + 1, lf, Delim);
    var ve := Span(b, vs, lf, TokenChar);
    if ChunkedHeader(b, ns, ne, vs, ve) then f.(chunk := 0)
    else if LengthHeader(b, ns, ne) then f.(headerLength := AtoiIn(b, vs, ve))
    else f
  }

  /**
   * http_parse_message (http.c:286-362): the body window goes to Content; before
   * that, nothing is done until a whole line is present; while header.code is 0
   * the line must be a status line, else the result is NULL; header lines are
   * read by Headers.
   */
  function Message(f: Fields, b: seq<char>, bod: nat, eod: nat): (p: Parse)
    requires Window(b, bod, eod)
    ensures p.next.None? ==> f.code == 0 && !f.inContent && p.fields == f
    decreases eod - bod, 1
  {
    if f.inContent then Content(f, b, bod, eod)
    else
      match StrChrAt(b, bod, '\n')
      case None => Parse(Some(bod), f)
      case Some(lf) =>
        FoundInWindow(b, bod, eod, '\n');
        if f.code == 0 then
          if StatusAt(b, bod, lf) then
            Message(f.(code := AtoiAt(b, bod + 8)), b, lf + 1, eod)
          else Parse(None, f)
        else Headers(f, b, bod, lf, eod)
  }

  /**
   * The header loop of http.c:320-361, at the line b[bod..lf] whose LF is at
   * `lf`: an empty line or a lone CR ends the headers and the rest of the window
   * goes to the body in the same call; otherwise the line is read and the loop
   * goes on, returning the position after the last whole line when no LF is left.
   */
  function Headers(f: Fields, b: seq<char>, bod: nat, lf: nat, eod: nat): (p: Parse)
    requires Window(b, bod, eod) && bod <= lf < eod && f.code != 0 && !f.inContent
    ensures p.next.Some? && lf + 1 <= p.next.value
    decreases eod - bod, 0
  {
    if BlankAt(b, bod, lf) then
      Message(f.(inContent := true), b, lf + 1, eod)
    else
      var g := HeaderAt(f, b, bod, lf);
      match StrChrAt(b, lf + 1, '\n')
      case None => Parse(Some(lf + 1), g)
      case Some(next) =>
        FoundInWindow(b, lf + 1, eod, '\n');
        Headers(g, b, lf + 1, next, eod)
  }

  // ---------------------------------------------------------------------------
  // Every parse result is sound

  lemma ChunkHeaderSound(f: Fields, b: seq<char>, bod: nat, eod: nat)
    requires Window(b, bod, eod) && f.chunk == 0
    ensures Sound(f, bod, eod, ChunkHeader(f, b, bod, eod))
  {
    match StrChrAt(b, bod, '\n')
    case None =>
    case Some(eoc) =>
      FoundInWindow(b, bod, eod, '\n');
  }

  lemma ContentSound(f: Fields, b: seq<char>, bod: nat, eod: nat)
    requires Window(b, bod, eod)
    ensures Sound(f, bod, eod, Content(f, b, bod, eod))
  {
    if f.chunk == 0 && 0 < eod - bod {
      ChunkHeaderSound(f, b, bod, eod);
    }
  }

  lemma {:induction false} MessageSound(f: Fields, b: seq<char>, bod: nat, eod: nat)
    requires Window(b, bod, eod)
    ensures Sound(f, bod, eod, Message(f, b, bod, eod))
    decreases eod - bod, 1
  {
    if f.inContent {
      ContentSound(f, b, bod, eod);
    } else {
      match StrChrAt(b, bod, '\n')
      case None =>
      case Some(lf) =>
        FoundInWindow(b, bod, eod, '\n');
        if f.code == 0 {
          if StatusAt(b, bod, lf) {
            MessageSound(f.(code := AtoiAt(b, bod + 8)), b, lf + 1, eod);
          }
        } else {
          HeadersSound(f, b, bod, lf, eod);
        }
    }
  }

  lemma {:induction false} HeadersSound(f: Fields, b: seq<char>, bod: nat, lf: nat, eod: nat)
    requires Window(b, bod, eod) && bod <= lf < eod && f.code != 0 && !f.inContent
    ensures Sound(f, bod, eod, Headers(f, b, bod, lf, eod))
    decreases eod - bod, 0
  {
    if BlankAt(b, bod, lf) {
      MessageSound(f.(inContent := true), b, lf + 1, eod);
    } else {
      var g := HeaderAt(f, b, bod, lf);
      match StrChrAt(b, lf + 1, '\n')
      case None =>
      case Some(next) =>
        FoundInWindow(b, lf + 1, eod, '\n');
        HeadersSound(g, b, lf + 1, next, eod);
    }
  }

  // ---------------------------------------------------------------------------
  // One step of Message and Headers each, stated on their own

  /** A status line is consumed and the code it carries is set. */
  lemma MessageStatus(f: Fields, b: seq<char>, bod: nat, eod: nat, lf: nat)
    requires Window(b, bod, eod) && !f.inContent && f.code == 0
    requires StrChrAt(b, bod, '\n') == Some(lf) && StatusAt(b, bod, lf)
    ensures lf < eod
    ensures Message(f, b, bod, eod) == Message(f.(code := AtoiAt(b, bod + 8)), b, lf + 1, eod)
  {
    FoundInWindow(b, bod, eod, '\n');
  }

  /** Anything but an HTTP/1.0 or HTTP/1.1 status line makes the parse fail. */
  lemma MessageBadStatus(f: Fields, b: seq<char>, bod: nat, eod: nat, lf: nat)
    requires Window(b, bod, eod) && !f.inContent && f.code == 0
    requires StrChrAt(b, bod, '\n') == Some(lf) && !StatusAt(b, bod, lf)
    ensures Message(f, b, bod, eod) == Parse(None, f)
  {
  }

  /** Once the status line is read, the lines go to the header loop. */
  lemma MessageHeaders(f: Fields, b: seq<char>, bod: nat, eod: nat, lf: nat)
    requires Window(b, bod, eod) && !f.inContent && f.code != 0
    requires StrChrAt(b, bod, '\n') == Some(lf)
    ensures lf < eod
    ensures Message(f, b, bod, eod) == Headers(f, b, bod, lf, eod)
  {
    FoundInWindow(b, bod, eod, '\n');
  }

  /** An empty line or a lone CR ends the headers; the body is parsed in the same call. */
  lemma HeadersEnd(f: Fields, b: seq<char>, bod: nat, lf: nat, eod: nat)
    requires Window(b, bod, eod) && bod <= lf < eod && f.code != 0 && !f.inContent
    requires BlankAt(b, bod, lf)
    ensures Headers(f, b, bod, lf, eod) == Message(f.(inContent := true), b, lf + 1, eod)
  {
  }

  /** Any other line is read as a header, and the loop goes on at the next LF, if there is one. */
  lemma HeadersNext(f: Fields, b: seq<char>, bod: nat, lf: nat, eod: nat)
    requires Window(b, bod, eod) && bod <= lf < eod && f.code != 0 && !f.inContent
    requires !BlankAt(b, bod, lf)
    ensures
      var g := HeaderAt(f, b, bod, lf);
      match StrChrAt(b, lf + 1, '\n')
      case None => Headers(f, b, bod, lf, eod) == Parse(Some(lf + 1), g)
      case Some(next) => next < eod && Headers(f, b, bod, lf, eod) == Headers(g, b, lf + 1, next, eod)
  {
    if StrChrAt(b, lf + 1, '\n').Some? {
      FoundInWindow(b, lf + 1, eod, '\n');
    }
  }

  // ---------------------------------------------------------------------------
  // The scans of the parse read nothing before the parse position

  /** Byte `i` is the same in both buffers. */
  predicate Same(b1: seq<char>, b2: seq<char>, i: nat)
    requires i < |b1| && i < |b2|
  {
    b1[i] == b2[i]
  }

  /** Two buffers of one size that agree from `bod` on. */
  ghost predicate SameFrom(b1: seq<char>, b2: seq<char>, bod: nat) {
    |b1| == |b2| && forall i | bod <= i < |b1| :: Same(b1, b2, i)
  }

  lemma SameSlice(b1: seq<char>, b2: seq<char>, bod: nat, i: nat, j: nat)
    requires SameFrom(b1, b2, bod) && bod <= i <= j <= |b1|
    ensures b1[i..j] == b2[i..j] && b1[i..] == b2[i..]
  {
    forall k | i <= k < |b1| ensures b1[k] == b2[k] {
      assert Same(b1, b2, k);
    }
  }

  lemma SameLater(b1: seq<char>, b2: seq<char>, bod: nat, later: nat)
    requires SameFrom(b1, b2, bod) && bod <= later
    ensures SameFrom(b1, b2, later)
  {
    forall k | later <= k < |b1| ensures Same(b1, b2, k) {
      assert Same(b1, b2, k);
    }
  }

  lemma SameWindow(b1: seq<char>, b2: seq<char>, bod: nat, eod: nat)
    requires Window(b1, bod, eod) && SameFrom(b1, b2, bod)
    ensures Window(b2, bod, eod)
  {
    assert Same(b1, b2, eod);
  }

  /** Two buffers of one size that agree on positions lo..hi-1. */
  ghost predicate SameIn(b1: seq<char>, b2: seq<char>, lo: nat, hi: nat) {
    |b1| == |b2| && hi <= |b1| && forall i | lo <= i < hi :: Same(b1, b2, i)
  }

  lemma SameFromIn(b1: seq<char>, b2: seq<char>, bod: nat, lo: nat, hi: nat)
    requires SameFrom(b1, b2, bod) && bod <= lo && hi <= |b1|
    ensures SameIn(b1, b2, lo, hi)
  {
  }

  /** A scan of b[from..end] sees the same bytes in both buffers. */
  lemma {:induction false} SpanFrame(b1: seq<char>, b2: seq<char>, from: nat, end: nat, cls: Class)
    requires SameIn(b1, b2, from, end) && from <= end
    ensures Span(b1, from, end, cls) == Span(b2, from, end, cls)
    decreases end - from
  {
    if from < end {
      assert Same(b1, b2, from);
      SpanFrame(b1, b2, from + 1, end, cls);
    }
  }

  lemma StatusAtFrame(b1: seq<char>, b2: seq<char>, bod: nat, lf: nat)
    requires SameFrom(b1, b2, bod) && bod <= lf <= |b1|
    ensures StatusAt(b1, bod, lf) == StatusAt(b2, bod, lf)
  {
    if bod + 8 <= lf {
      assert Same(b1, b2, bod) && Same(b1, b2, bod + 1) && Same(b1, b2, bod + 2) && Same(b1, b2, bod + 3);
      assert Same(b1, b2, bod + 4) && Same(b1, b2, bod + 5) && Same(b1, b2, bod + 6) && Same(b1, b2, bod + 7);
    }
  }

  lemma ValueInFrame(b1: seq<char>, b2: seq<char>, from: nat, upto: nat, radix: nat)
    requires SameIn(b1, b2, from, upto) && from <= upto
    ensures ValueIn(b1, from, upto, radix) == ValueIn(b2, from, upto, radix)
  {
    forall i | from <= i < upto ensures b1[i] == b2[0 + i] {
      assert Same(b1, b2, i);
    }
    ValueInSlice(b2, b1, from, upto, 0, radix);
  }

  lemma AtoiInFrame(b1: seq<char>, b2: seq<char>, from: nat, end: nat)
    requires SameIn(b1, b2, from, end) && from <= end
    ensures AtoiIn(b1, from, end) == AtoiIn(b2, from, end)
  {
    SpanFrame(b1, b2, from, end, Space);
    var i := Span(b1, from, end, Space);
    if i < end {
      assert Same(b1, b2, i);
    }
    var k := if i < end && (b1[i] == '-' || b1[i] == '+') then i + 1 else i;
    SpanFrame(b1, b2, k, end, Digit);
    ValueInFrame(b1, b2, k, Span(b1, k, end, Digit), 10);
  }

  lemma AtoiAtFrame(b1: seq<char>, b2: seq<char>, from: nat)
    requires SameFrom(b1, b2, from) && from <= |b1|
    ensures AtoiAt(b1, from) == AtoiAt(b2, from)
  {
    SameFromIn(b1, b2, from, from, |b1|);
    AtoiInFrame(b1, b2, from, |b1|);
  }

  lemma ScanHexAtFrame(b1: seq<char>, b2: seq<char>, from: nat, end: nat)
    requires SameFrom(b1, b2, from) && from <= end <= |b1|
    ensures ScanHexAt(b1, from, end) == ScanHexAt(b2, from, end)
  {
    SameFromIn(b1, b2, from, from, end);
    SpanFrame(b1, b2, from, end, Space);
    var i := Span(b1, from, end, Space);
    SpanFrame(b1, b2, i, end, XDigit);
    ValueInFrame(b1, b2, i, Span(b1, i, end, XDigit), 16);
  }

  lemma CaseEqAtFrame(b1: seq<char>, b2: seq<char>, from: nat, to: nat, lit: seq<char>)
    requires SameIn(b1, b2, from, to) && from <= to
    ensures CaseEqAt(b1, from, to, lit) == CaseEqAt(b2, from, to, lit)
  {
    if to - from == |lit| {
      forall j | from <= j < to ensures b1[j] == b2[j] {
        assert Same(b1, b2, j);
      }
    }
  }

  /** A header line reads only the bytes of the line. */
  lemma HeaderAtFrame(f: Fields, b1: seq<char>, b2: seq<char>, bod: nat, lf: nat)
    requires SameIn(b1, b2, bod, lf) && bod <= lf
    ensures HeaderAt(f, b1, bod, lf) == HeaderAt(f, b2, bod, lf)
  {
    SpanFrame(b1, b2, bod, lf, Besides(':'));
    var c := Span(b1, bod, lf, Besides(':'));
    if c < lf {
      assert Same(b1, b2, c);
    }
    if c < lf && b1[c] == ':' {
      HeaderNamedFrame(f, b1, b2, bod, c, lf);
    }
  }

  lemma HeaderNamedFrame(f: Fields, b1: seq<char>, b2: seq<char>, bod: nat, c: nat, lf: nat)
    requires SameIn(b1, b2, bod, lf) && bod <= c < lf
    ensures HeaderNamed(f, b1, bod, c, lf) == HeaderNamed(f, b2, bod, c, lf)
  {
    SpanFrame(b1, b2, bod, c, Delim);
    var ns := Span(b1, bod, c, Delim);
    SpanFrame(b1, b2, ns, c, TokenChar);
    var ne := Span(b1, ns, c, TokenChar);
    SpanFrame(b1, b2, c + 1, lf, Delim);
    var vs := Span(b1, c + 1, lf, Delim);
    SpanFrame(b1, b2, vs, lf, TokenChar);
    var ve := Span(b1, vs, lf, TokenChar);
    TokensFrame(b1, b2, bod, lf, ns, ne, vs, ve);
  }

  /** The tests on the name and value tokens read only the bytes of the line. */
  lemma TokensFrame(b1: seq<char>, b2: seq<char>, bod: nat, lf: nat, ns: nat, ne: nat, vs: nat, ve: nat)
    requires SameIn(b1, b2, bod, lf) && bod <= ns <= ne <= lf && bod <= vs <= ve <= lf
    ensures ChunkedHeader(b1, ns, ne, vs, ve) == ChunkedHeader(b2, ns, ne, vs, ve)
    ensures LengthHeader(b1, ns, ne) == LengthHeader(b2, ns, ne)
    ensures AtoiIn(b1, vs, ve) == AtoiIn(b2, vs, ve)
  {
    CaseEqAtFrame(b1, b2, ns, ne, "Transfer-Encoding");
    CaseEqAtFrame(b1, b2, vs, ve, "chunked");
    CaseEqAtFrame(b1, b2, ns, ne, "Content-Length");
    AtoiInFrame(b1, b2, vs, ve);
  }

  /** A strchr from `from` on sees the same bytes in both buffers. */
  lemma {:induction false} StrChrAtFrame(b1: seq<char>, b2: seq<char>, from: nat, c: char)
    requires SameFrom(b1, b2, from) && c != NUL && from <= |b1|
    ensures StrChrAt(b1, from, c) == StrChrAt(b2, from, c)
    decreases |b1| - from
  {
    if from < |b1| {
      assert Same(b1, b2, from);
      if b1[from] != NUL && b1[from] != c {
        SameLater(b1, b2, from, from + 1);
        StrChrAtFrame(b1, b2, from + 1, c);
      }
    }
  }
}
