/**
 * What the decoder of module Decoder does, stated on whole inputs rather than
 * step by step: how a header line is read, which bytes of a chunked body make
 * the fragments, where a parse of the headers stops, and the case in which
 * http_cut_trailing_crlf as written lets a chunk's LF through.
 */
module Properties {
  import opened Wrappers
  import opened Libc
  import opened Decoder

  // ---------------------------------------------------------------------------
  // Scans over a copy of a string

  /** Span over bytes that equal those of `c`, placed at offset `shift` of `b`, gives Span over `c`, shifted. */
  lemma {:induction false} SpanShift(b: seq<char>, c: seq<char>, shift: nat, from: nat, end: nat, cls: Class)
    requires from <= end <= |c| && shift + end <= |b|
    requires forall i | from <= i < end :: b[shift + i] == c[i]
    ensures Span(b, shift + from, shift + end, cls) == shift + Span(c, from, end, cls)
    decreases end - from
  {
    if from < end {
      assert b[shift + from] == c[from];
      SpanShift(b, c, shift, from + 1, end, cls);
    }
  }

  /** atoi reads the same number from a string wherever it is placed. */
  lemma AtoiInShift(b: seq<char>, c: seq<char>, shift: nat, from: nat, end: nat)
    requires from <= end <= |c| && shift + end <= |b|
    requires forall i | from <= i < end :: b[shift + i] == c[i]
    ensures AtoiIn(b, shift + from, shift + end) == AtoiIn(c, from, end)
  {
    var i := Span(c, from, end, Space);
    assert Span(b, shift + from, shift + end, Space) == shift + i by {
      SpanShift(b, c, shift, from, end, Space);
    }
    var k := if i < end && (c[i] == '-' || c[i] == '+') then i + 1 else i;
    var j := Span(c, k, end, Digit);
    assert i < end ==> b[shift + i] == c[i];
    assert Span(b, shift + k, shift + end, Digit) == shift + j by {
      SpanShift(b, c, shift, k, end, Digit);
    }
    assert ValueIn(b, shift + k, shift + j, 10) == ValueIn(c, k, j, 10) by {
      ValueInSlice(b, c, k, j, shift, 10);
    }
  }

  /** strchr finds the first `c` when the bytes before it are neither `c` nor the terminator. */
  lemma {:induction false} StrChrAtFinds(b: seq<char>, from: nat, k: nat, c: char)
    requires c != NUL && from <= k < |b| && b[k] == c
    requires forall i | from <= i < k :: b[i] != c && b[i] != NUL
    ensures StrChrAt(b, from, c) == Some(k)
    decreases k - from
  {
    if from < k {
      StrChrAtFinds(b, from + 1, k, c);
    }
  }

  /** strchr finds nothing when the terminator comes before any `c`. */
  lemma {:induction false} StrChrAtMisses(b: seq<char>, from: nat, k: nat, c: char)
    requires c != NUL && from <= k < |b| && b[k] == NUL
    requires forall i | from <= i < k :: b[i] != c && b[i] != NUL
    ensures StrChrAt(b, from, c) == None
    decreases k - from
  {
    if from < k {
      StrChrAtMisses(b, from + 1, k, c);
    }
  }

  /** strchr finds the LF of a line held at `bod` that has no LF or NUL of its own. */
  lemma LineEnds(b: seq<char>, bod: nat, lf: nat, line: seq<char>)
    requires bod <= lf < |b| && b[bod..lf] == line && b[lf] == '\n'
    requires '\n' !in line && NUL !in line
    ensures StrChrAt(b, bod, '\n') == Some(lf)
  {
    forall i | bod <= i < lf ensures b[i] != '\n' && b[i] != NUL {
      assert b[i] == line[i - bod];
    }
    StrChrAtFinds(b, bod, lf, '\n');
  }

  // ---------------------------------------------------------------------------
  // Header lines

  /** A string that strspn and strtok with " \t\r\n" take as one whole token. */
  predicate IsToken(t: seq<char>) {
    t != [] && forall i | 0 <= i < |t| :: IsTokenChar(t[i])
  }

  /** A line without ':' leaves the fields as they are. */
  lemma LineWithoutColon(f: Fields, b: seq<char>, bod: nat, lf: nat)
    requires bod <= lf <= |b| && forall i | bod <= i < lf :: b[i] != ':'
    ensures HeaderAt(f, b, bod, lf) == f
  {
  }

  /** A run of the delimiters " \t\r\n" that strspn passes over, possibly empty. */
  predicate IsDelims(d: seq<char>) {
    forall i | 0 <= i < |d| :: IsDelim(d[i])
  }

  /** What may follow a token: nothing, or text that starts with a delimiter or the terminator. */
  predicate EndsToken(t: seq<char>) {
    t == [] || !IsTokenChar(t[0])
  }

  /** The string `x` held at position `at` of `b`. */
  ghost predicate Placed(b: seq<char>, at: nat, x: seq<char>) {
    at + |x| <= |b| && forall i | 0 <= i < |x| :: b[at + i] == x[i]
  }

  /** A slice written as two parts: the first is the front of the slice, the second is held after it. */
  lemma SplitLast(b: seq<char>, lo: nat, hi: nat, x: seq<char>, y: seq<char>)
    requires lo <= hi <= |b| && b[lo..hi] == x + y
    ensures hi == lo + |x| + |y| && b[lo..lo + |x|] == x && Placed(b, lo + |x|, y)
  {
    forall i | 0 <= i < |y| ensures b[lo + |x| + i] == y[i] {
      assert b[lo..hi][|x| + i] == (x + y)[|x| + i];
    }
    assert b[lo..lo + |x|] == b[lo..hi][..|x|];
  }

  /** Span passes over a string whose bytes are all of the class, and stops where it ends. */
  lemma SpanOver(b: seq<char>, at: nat, end: nat, x: seq<char>, cls: Class)
    requires Placed(b, at, x) && at + |x| <= end <= |b|
    requires forall i | 0 <= i < |x| :: In(cls, x[i])
    requires at + |x| == end || !In(cls, b[at + |x|])
    ensures Span(b, at, end, cls) == at + |x|
  {
    forall i | at <= i < at + |x| ensures In(cls, b[i]) {
      assert b[at + (i - at)] == x[i - at];
    }
    SpanStops(b, at, end, cls, at + |x|);
  }

  /** The parts of a header line where they fall in the buffer, the ':' at `c`. */
  ghost predicate LaidOut(b: seq<char>, bod: nat, c: nat, lf: nat,
                          d1: seq<char>, name: seq<char>, t1: seq<char>, d2: seq<char>, value: seq<char>, t2: seq<char>)
  {
    && c == bod + |d1| + |name| + |t1| && lf == c + 1 + |d2| + |value| + |t2| <= |b|
    && Placed(b, bod, d1) && Placed(b, bod + |d1|, name) && Placed(b, bod + |d1| + |name|, t1)
    && b[c] == ':' && Placed(b, c + 1, d2) && Placed(b, c + 1 + |d2|, value)
    && Placed(b, c + 1 + |d2| + |value|, t2)
  }

  lemma Layout(b: seq<char>, bod: nat, lf: nat,
               d1: seq<char>, name: seq<char>, t1: seq<char>, d2: seq<char>, value: seq<char>, t2: seq<char>)
    requires bod <= lf <= |b| && b[bod..lf] == d1 + name + t1 + ":" + d2 + value + t2
    ensures LaidOut(b, bod, bod + |d1| + |name| + |t1|, lf, d1, name, t1, d2, value, t2)
  {
    var ns := bod + |d1|;
    var c := ns + |name| + |t1|;
    var vs := c + 1 + |d2|;
    var ve := vs + |value|;
    SplitLast(b, bod, lf, d1 + name + t1 + ":" + d2 + value, t2);
    SplitLast(b, bod, ve, d1 + name + t1 + ":" + d2, value);
    SplitLast(b, bod, vs, d1 + name + t1 + ":", d2);
    SplitLast(b, bod, c + 1, d1 + name + t1, ":");
    SplitLast(b, bod, c, d1 + name, t1);
    SplitLast(b, bod, ns + |name|, d1, name);
    SplitLast(b, bod, ns, [], d1);
    assert b[c + 0] == ':';
  }

  /** strchr finds the ':' after t1: nothing before it is a ':' or the terminator. */
  lemma LaidOutColon(b: seq<char>, bod: nat, c: nat, lf: nat,
                     d1: seq<char>, name: seq<char>, t1: seq<char>, d2: seq<char>, value: seq<char>, t2: seq<char>)
    requires LaidOut(b, bod, c, lf, d1, name, t1, d2, value, t2)
    requires IsDelims(d1) && IsToken(name) && ':' !in name && ':' !in t1 && NUL !in t1
    ensures Colon(b, bod, lf) == Some(c)
  {
    var ns := bod + |d1|;
    forall i | bod <= i < c ensures In(Besides(':'), b[i]) {
      if i < ns {
        assert b[bod + (i - bod)] == d1[i - bod];
      } else if i < ns + |name| {
        assert b[ns + (i - ns)] == name[i - ns];
      } else {
        assert b[ns + |name| + (i - ns - |name|)] == t1[i - ns - |name|];
      }
    }
    SpanStops(b, bod, lf, Besides(':'), c);
  }

  /** strspn skips d1 and d2, and strtok ends the name and the value where t1 and t2 begin. */
  lemma LaidOutTokens(b: seq<char>, bod: nat, c: nat, lf: nat,
                      d1: seq<char>, name: seq<char>, t1: seq<char>, d2: seq<char>, value: seq<char>, t2: seq<char>)
    requires LaidOut(b, bod, c, lf, d1, name, t1, d2, value, t2)
    requires IsDelims(d1) && IsToken(name) && EndsToken(t1)
    requires IsDelims(d2) && IsToken(value) && EndsToken(t2)
    ensures var ns := bod + |d1|; var vs := c + 1 + |d2|;
      && Span(b, bod, c, Delim) == ns && Span(b, ns, c, TokenChar) == ns + |name|
      && Span(b, c + 1, lf, Delim) == vs && Span(b, vs, lf, TokenChar) == vs + |value|
  {
    var ns := bod + |d1|;
    var vs := c + 1 + |d2|;
    assert name[0] == b[ns + 0] && value[0] == b[vs + 0];
    assert t1 != [] ==> b[ns + |name| + 0] == t1[0];
    assert t2 != [] ==> b[vs + |value| + 0] == t2[0];
    SpanOver(b, bod, c, d1, Delim);
    SpanOver(b, ns, c, name, TokenChar);
    SpanOver(b, c + 1, lf, d2, Delim);
    SpanOver(b, vs, lf, value, TokenChar);
  }

  /** The tokens compare as the strings they are copies of, and atoi reads the value's number. */
  lemma PlacedCompare(b: seq<char>, at: nat, x: seq<char>, lit: seq<char>)
    requires Placed(b, at, x)
    ensures CaseEqAt(b, at, at + |x|, lit) == CaseEqAt(x, 0, |x|, lit)
    ensures AtoiIn(b, at, at + |x|) == Atoi(x)
  {
    AtoiInShift(b, x, at, 0, |x|);
  }

  /** A header line whose ':' and tokens have been found is read as HeaderNamed says. */
  lemma HeaderCut(f: Fields, b: seq<char>, bod: nat, c: nat, lf: nat, ns: nat, ne: nat, vs: nat, ve: nat)
    requires bod <= ns <= ne <= c < vs <= ve <= lf <= |b| && Colon(b, bod, lf) == Some(c)
    requires Span(b, bod, c, Delim) == ns && Span(b, ns, c, TokenChar) == ne
    requires Span(b, c + 1, lf, Delim) == vs && Span(b, vs, lf, TokenChar) == ve
    ensures HeaderAt(f, b, bod, lf) ==
      if ChunkedHeader(b, ns, ne, vs, ve) then f.(chunk := 0)
      else if LengthHeader(b, ns, ne) then f.(headerLength := AtoiIn(b, vs, ve))
      else f
  {
  }

  /** The tests of http.c:352-357 on the name and value tokens, as tests on the strings they copy. */
  lemma TokensCompare(b: seq<char>, ns: nat, name: seq<char>, vs: nat, value: seq<char>)
    requires Placed(b, ns, name) && Placed(b, vs, value)
    ensures ChunkedHeader(b, ns, ns + |name|, vs, vs + |value|) ==
      (CaseEqAt(name, 0, |name|, "Transfer-Encoding") && CaseEqAt(value, 0, |value|, "chunked"))
    ensures LengthHeader(b, ns, ns + |name|) == CaseEqAt(name, 0, |name|, "Content-Length")
    ensures AtoiIn(b, vs, vs + |value|) == Atoi(value)
  {
    PlacedCompare(b, ns, name, "Transfer-Encoding");
    PlacedCompare(b, ns, name, "Content-Length");
    PlacedCompare(b, vs, value, "chunked");
  }

  /** HeaderCut, with the tests on the tokens given as tests on the strings they copy. */
  lemma HeaderDecided(f: Fields, b: seq<char>, bod: nat, c: nat, lf: nat, ns: nat, name: seq<char>, vs: nat, value: seq<char>)
    requires bod <= ns <= ns + |name| <= c < vs <= vs + |value| <= lf <= |b| && Colon(b, bod, lf) == Some(c)
    requires Span(b, bod, c, Delim) == ns && Span(b, ns, c, TokenChar) == ns + |name|
    requires Span(b, c + 1, lf, Delim) == vs && Span(b, vs, lf, TokenChar) == vs + |value|
    requires ChunkedHeader(b, ns, ns + |name|, vs, vs + |value|) ==
      (CaseEqAt(name, 0, |name|, "Transfer-Encoding") && CaseEqAt(value, 0, |value|, "chunked"))
    requires LengthHeader(b, ns, ns + |name|) == CaseEqAt(name, 0, |name|, "Content-Length")
    requires AtoiIn(b, vs, vs + |value|) == Atoi(value)
    ensures HeaderAt(f, b, bod, lf) ==
      if CaseEqAt(name, 0, |name|, "Transfer-Encoding") && CaseEqAt(value, 0, |value|, "chunked") then f.(chunk := 0)
      else if CaseEqAt(name, 0, |name|, "Content-Length") then f.(headerLength := Atoi(value))
      else f
  {
    HeaderCut(f, b, bod, c, lf, ns, ns + |name|, vs, vs + |value|);
  }

  /** HeaderLine, on the line as laid out in the buffer. */
  lemma HeaderLaidOut(f: Fields, b: seq<char>, bod: nat, c: nat, lf: nat,
                      d1: seq<char>, name: seq<char>, t1: seq<char>, d2: seq<char>, value: seq<char>, t2: seq<char>)
    requires LaidOut(b, bod, c, lf, d1, name, t1, d2, value, t2)
    requires IsDelims(d1) && IsToken(name) && ':' !in name
    requires EndsToken(t1) && ':' !in t1 && NUL !in t1
    requires IsDelims(d2) && IsToken(value) && EndsToken(t2)
    ensures HeaderAt(f, b, bod, lf) ==
      if CaseEqAt(name, 0, |name|, "Transfer-Encoding") && CaseEqAt(value, 0, |value|, "chunked") then f.(chunk := 0)
      else if CaseEqAt(name, 0, |name|, "Content-Length") then f.(headerLength := Atoi(value))
      else f
  {
    var ns := bod + |d1|;
    var vs := c + 1 + |d2|;
    LaidOutColon(b, bod, c, lf, d1, name, t1, d2, value, t2);
    LaidOutTokens(b, bod, c, lf, d1, name, t1, d2, value, t2);
    TokensCompare(b, ns, name, vs, value);
    HeaderDecided(f, b, bod, c, lf, ns, name, vs, value);
  }

  /**
   * A header line d1 + name + t1 + ":" + d2 + value + t2, its LF at `lf`:
   * strspn skips the delimiter runs d1 and d2, and strtok cuts the name and
   * the value at their first delimiter, so the text t1 before the first ':'
   * and the text t2 after the value do not count. Chunked framing is selected
   * when the name is Transfer-Encoding and the value chunked, in any mix of
   * case; otherwise the name Content-Length, in any case, sets header.length
   * to the value read by atoi; every other header is ignored.
   */
  lemma HeaderLine(f: Fields, b: seq<char>, bod: nat, lf: nat,
                   d1: seq<char>, name: seq<char>, t1: seq<char>, d2: seq<char>, value: seq<char>, t2: seq<char>)
    requires bod <= lf <= |b| && b[bod..lf] == d1 + name + t1 + ":" + d2 + value + t2
    requires IsDelims(d1) && IsToken(name) && ':' !in name
    requires EndsToken(t1) && ':' !in t1 && NUL !in t1
    requires IsDelims(d2) && IsToken(value) && EndsToken(t2)
    ensures HeaderAt(f, b, bod, lf) ==
      if CaseEqAt(name, 0, |name|, "Transfer-Encoding") && CaseEqAt(value, 0, |value|, "chunked") then f.(chunk := 0)
      else if CaseEqAt(name, 0, |name|, "Content-Length") then f.(headerLength := Atoi(value))
      else f
  {
    var c := bod + |d1| + |name| + |t1|;
    Layout(b, bod, lf, d1, name, t1, d2, value, t2);
    HeaderLaidOut(f, b, bod, c, lf, d1, name, t1, d2, value, t2);
  }

  /** "Transfer-Encoding: chunked" selects chunked framing. */
  lemma ChunkedLine(f: Fields, b: seq<char>, bod: nat, lf: nat)
    requires bod <= lf <= |b| && b[bod..lf] == "Transfer-Encoding" + ": " + "chunked" + "\r"
    ensures HeaderAt(f, b, bod, lf) == f.(chunk := 0)
  {
    HeaderLine(f, b, bod, lf, [], "Transfer-Encoding", [], " ", "chunked", "\r");
  }

  /** "Content-Length: n" sets header.length to n. */
  lemma ContentLengthLine(f: Fields, b: seq<char>, bod: nat, lf: nat, n: nat)
    requires bod <= lf <= |b| && b[bod..lf] == "Content-Length" + ": " + Decimal(n) + "\r"
    ensures HeaderAt(f, b, bod, lf) == f.(headerLength := n)
  {
    assert !CaseEqAt("Content-Length", 0, 14, "Transfer-Encoding");
    HeaderLine(f, b, bod, lf, [], "Content-Length", [], " ", Decimal(n), "\r");
    AtoiDecimal(n, []);
    assert Decimal(n) + [] == Decimal(n);
  }

  // ---------------------------------------------------------------------------
  // Where a parse of the headers stops

  /** Before the body, nothing is consumed and nothing changes until the window holds a whole line. */
  lemma LineIncomplete(f: Fields, b: seq<char>, bod: nat, eod: nat)
    requires Window(b, bod, eod) && !f.inContent && StrChrAt(b, bod, '\n').None?
    ensures Message(f, b, bod, eod) == Parse(Some(bod), f)
  {
  }

  /**
   * While the headers go on, the header loop stops right after an LF, with no
   * further LF in the window: what is left for the next call is an incomplete
   * line.
   */
  lemma {:induction false} HeadersStop(f: Fields, b: seq<char>, bod: nat, lf: nat, eod: nat)
    requires Window(b, bod, eod) && bod <= lf < eod && f.code != 0 && !f.inContent && b[lf] == '\n'
    ensures var p := Headers(f, b, bod, lf, eod);
      !p.fields.inContent ==>
        p.next.value <= eod && b[p.next.value - 1] == '\n' && StrChrAt(b, p.next.value, '\n').None?
    decreases eod - bod
  {
    if !BlankAt(b, bod, lf) {
      var g := HeaderAt(f, b, bod, lf);
      match StrChrAt(b, lf + 1, '\n')
      case None =>
      case Some(next) =>
        FoundInWindow(b, lf + 1, eod, '\n');
        HeadersStop(g, b, lf + 1, next, eod);
    }
  }

  /**
   * Before the body, a parse that does not fail stops at the start of the
   * window or right after an LF, with no further LF in the window: the status
   * line and the header lines are only read once they are whole.
   */
  lemma {:induction false} MessageStop(f: Fields, b: seq<char>, bod: nat, eod: nat)
    requires Window(b, bod, eod)
    ensures var p := Message(f, b, bod, eod);
      p.next.Some? && !p.fields.inContent ==>
        && p.next.value <= eod
        && (p.next.value == bod || (bod < p.next.value && b[p.next.value - 1] == '\n'))
        && StrChrAt(b, p.next.value, '\n').None?
    decreases eod - bod
  {
    if !f.inContent {
      match StrChrAt(b, bod, '\n')
      case None =>
      case Some(lf) =>
        FoundInWindow(b, bod, eod, '\n');
        if f.code == 0 {
          if StatusAt(b, bod, lf) {
            MessageStop(f.(code := AtoiAt(b, bod + 8)), b, lf + 1, eod);
          }
        } else {
          HeadersStop(f, b, bod, lf, eod);
        }
    }
  }

  // ---------------------------------------------------------------------------
  // Bodies

  /** Without chunked framing the whole window is the fragment, and nothing is cut. */
  lemma ContentPlain(f: Fields, b: seq<char>, bod: nat, eod: nat)
    requires Window(b, bod, eod) && f.chunk == -1
    ensures Content(f, b, bod, eod) == Parse(Some(eod), f.(content := Some(bod), length := eod - bod))
  {
  }

  /** A parse of the body makes progress on a non-empty window unless it waits for the rest of a chunk-size line. */
  lemma ContentStalls(f: Fields, b: seq<char>, bod: nat, eod: nat)
    requires Window(b, bod, eod) && bod < eod
    ensures Content(f, b, bod, eod).next == Some(bod) <==> f.chunk == 0 && StrChrAt(b, bod, '\n').None?
  {
    if f.chunk == 0 && StrChrAt(b, bod, '\n').Some? {
      FoundInWindow(b, bod, eod, '\n');
    }
  }

  /** The bytes of the window that the current chunk supplies: the `remaining` bytes still to come of it, or the whole window. */
  function Taken(remaining: nat, avail: nat): nat {
    if remaining < avail then remaining else avail
  }

  /**
   * The payload among the first `avail` bytes of the rest of a chunk, when
   * `remaining` bytes of it (the payload, then its CRLF) are still to come:
   * only the bytes more than two before the end of the chunk.
   */
  function PayloadIn(remaining: nat, avail: nat): (n: nat)
    ensures n <= Taken(remaining, avail)
  {
    if remaining <= 2 then 0 else if remaining - 2 < avail then remaining - 2 else avail
  }

  /**
   * The payload and CRLF of a chunk whose size line has just been read: the
   * bytes of the chunk in the window are consumed, and the fragment is the
   * payload among them.
   */
  lemma ChunkDataPayload(f: Fields, from: nat, end: nat)
    requires from <= end && f.chunk >= 2
    ensures var p := ChunkData(f, from, end); var k := Taken(f.chunk, end - from);
      && p.next == Some(from + k) && p.fields.chunk == f.chunk - k
      && p.fields.content == Some(from) && p.fields.length == PayloadIn(f.chunk, end - from)
  {
  }

  /**
   * Inside a chunk, with `chunk` bytes of it still to come: the bytes of the
   * chunk in the window are consumed, and the fragment is the payload among
   * them, without any byte of the CRLF, however the window splits the chunk.
   */
  lemma ContentInChunk(f: Fields, b: seq<char>, bod: nat, eod: nat)
    requires Window(b, bod, eod) && f.chunk >= 1
    ensures var p := Content(f, b, bod, eod); var k := Taken(f.chunk, eod - bod);
      && p.next == Some(bod + k) && p.fields.chunk == f.chunk - k
      && p.fields.length == PayloadIn(f.chunk, eod - bod)
      && (p.fields.length > 0 ==> p.fields.content == Some(bod))
  {
  }

  /** A chunk-size line that is not yet whole is left for the next call. */
  lemma SizeLineIncomplete(f: Fields, b: seq<char>, bod: nat, eod: nat)
    requires Window(b, bod, eod) && bod < eod && f.chunk == 0 && StrChrAt(b, bod, '\n').None?
    ensures Content(f, b, bod, eod) == Parse(Some(bod), f)
  {
  }

  /**
   * A whole chunk-size line giving the size n, its LF at `eoc`: the n bytes
   * of payload and the CRLF after the line make the chunk, and the fragment is
   * the payload among them that the window holds.
   */
  lemma SizeLine(f: Fields, b: seq<char>, bod: nat, eod: nat, eoc: nat, n: nat)
    requires Window(b, bod, eod) && f.chunk == 0 && bod < eod
    requires StrChrAt(b, bod, '\n') == Some(eoc) && ScanHexAt(b, bod, eoc) == Some(n)
    ensures eoc < eod
    ensures var p := Content(f, b, bod, eod); var k := Taken(n + 2, eod - (eoc + 1));
      && p.next == Some(eoc + 1 + k) && p.fields.chunk == n + 2 - k
      && p.fields.content == Some(eoc + 1) && p.fields.length == PayloadIn(n + 2, eod - (eoc + 1))
  {
    FoundInWindow(b, bod, eod, '\n');
    ChunkDataPayload(f.(chunk := n + 2), eoc + 1, eod);
  }

  /** The line a server writes for a chunk of n bytes, the size in hexadecimal and a CRLF, is read back as n. */
  lemma SizeLineOfHex(b: seq<char>, bod: nat, n: nat)
    requires bod + |Hex(n)| + 2 <= |b| && b[bod..bod + |Hex(n)| + 2] == Hex(n) + "\r\n"
    ensures StrChrAt(b, bod, '\n') == Some(bod + |Hex(n)| + 1)
    ensures ScanHexAt(b, bod, bod + |Hex(n)| + 1) == Some(n)
  {
    var h := Hex(n);
    var eoc := bod + |h| + 1;
    var line := b[bod..eoc + 1];
    forall i | bod <= i < eoc ensures b[i] != '\n' && b[i] != NUL {
      assert b[i] == line[i - bod];
    }
    assert b[eoc] == line[|h| + 1];
    StrChrAtFinds(b, bod, eoc, '\n');
    assert b[bod..eoc] == h + "\r" by {
      assert b[bod..eoc] == line[..|h| + 1];
    }
    ScanHexAtSlice(b, bod, eoc);
    ScanHexHex(n, "\r");
  }

  // ---------------------------------------------------------------------------
  // A body read window by window

  /** The fragment a parse result names in the buffer `b`: empty when its length is 0. */
  function FragmentOf(p: Parse, b: seq<char>): seq<char> {
    var f := p.fields;
    if f.length > 0 && f.content.Some? && f.content.value + f.length <= |b|
    then b[f.content.value..f.content.value + f.length]
    else []
  }

  /**
   * The body parse run over the windows `ws` in turn, starting from fields
   * `f`: each window is what recv appended to an empty buffer (the read loop
   * moves the live bytes to the front, and ends the window with a NUL). The
   * result is the delivered fragments, concatenated, and the fields after the
   * last call.
   */
  function Stream(f: Fields, ws: seq<seq<char>>): (seq<char>, Fields)
    decreases |ws|
  {
    if ws == [] then ([], f)
    else
      var b := ws[0] + [NUL];
      var p := Content(f, b, 0, |ws[0]|);
      var rest := Stream(p.fields, ws[1..]);
      (FragmentOf(p, b) + rest.0, rest.1)
  }

  /** A body that is not chunked is delivered byte for byte, however recv splits it. */
  lemma {:induction false} PlainStream(f: Fields, ws: seq<seq<char>>)
    requires f.chunk == -1
    ensures Stream(f, ws).0 == Flatten(ws) && Stream(f, ws).1.chunk == -1
    decreases |ws|
  {
    if ws != [] {
      var b := ws[0] + [NUL];
      ContentPlain(f, b, 0, |ws[0]|);
      var p := Content(f, b, 0, |ws[0]|);
      assert FragmentOf(p, b) == ws[0] by {
        assert b[0..|ws[0]|] == ws[0];
      }
      PlainStream(p.fields, ws[1..]);
    }
  }

  /**
   * The fragment lengths the calls of Stream return, summed: what the read
   * loop adds to the delivered total, one call at a time (total += length).
   */
  function Delivered(f: Fields, ws: seq<seq<char>>): int
    decreases |ws|
  {
    if ws == [] then 0
    else
      var p := Content(f, ws[0] + [NUL], 0, |ws[0]|);
      p.fields.length + Delivered(p.fields, ws[1..])
  }

  /**
   * So for a body that is not chunked, the delivered total grows by exactly
   * the number of body bytes received, and the body parse leaves
   * header.length as the headers set it.
   */
  lemma {:induction false} PlainTotal(f: Fields, ws: seq<seq<char>>)
    requires f.chunk == -1
    ensures Delivered(f, ws) == |Flatten(ws)| == |Stream(f, ws).0|
    ensures Stream(f, ws).1.headerLength == f.headerLength
    decreases |ws|
  {
    PlainStream(f, ws);
    if ws != [] {
      var p := Content(f, ws[0] + [NUL], 0, |ws[0]|);
      ContentPlain(f, ws[0] + [NUL], 0, |ws[0]|);
      PlainTotal(p.fields, ws[1..]);
      assert Flatten(ws) == ws[0] + Flatten(ws[1..]);
    }
  }

  /** How much payload a run of windows of `a` then `m` bytes holds, inside a chunk of `remaining` bytes. */
  lemma PayloadInSplit(remaining: nat, a: nat, m: nat)
    requires a <= remaining
    ensures PayloadIn(remaining, a + m) == PayloadIn(remaining, a) + PayloadIn(remaining - a, m)
    ensures PayloadIn(remaining - a, m) > 0 ==> PayloadIn(remaining, a) == a
  {
  }

  /** The first window inside a chunk: its payload is delivered, and the chunk shrinks by its size. */
  lemma ChunkStep(f: Fields, ws: seq<seq<char>>)
    requires ws != [] && f.chunk >= 1 && |ws[0]| <= f.chunk
    ensures var p := Content(f, ws[0] + [NUL], 0, |ws[0]|);
      && p.fields.chunk == f.chunk - |ws[0]|
      && Stream(f, ws).0 == ws[0][..PayloadIn(f.chunk, |ws[0]|)] + Stream(p.fields, ws[1..]).0
      && Stream(f, ws).1 == Stream(p.fields, ws[1..]).1
  {
    var w := ws[0];
    var b := w + [NUL];
    ContentInChunk(f, b, 0, |w|);
    var k := PayloadIn(f.chunk, |w|);
    assert b[0..k] == w[..k];
  }

  /** Prefixes of two sequences joined, when the second contributes only after the whole first one. */
  lemma PrefixJoin(w: seq<char>, r: seq<char>, k: nat, m: nat)
    requires k <= |w| && m <= |r| && (m > 0 ==> k == |w|)
    ensures (w + r)[..k + m] == w[..k] + r[..m]
  {
    if m > 0 {
      assert (w + r)[..k + m] == w + r[..m];
    }
  }

  /**
   * Inside a chunk with `f.chunk` bytes to come, windows that the chunk fills
   * deliver, concatenated, exactly the payload among their bytes: the CRLF
   * that ends the chunk is never delivered, however recv splits the chunk,
   * the CR and the LF included.
   */
  lemma {:induction false} ChunkStream(f: Fields, ws: seq<seq<char>>)
    requires f.chunk >= 1 && |Flatten(ws)| <= f.chunk
    requires forall i | 0 <= i < |ws| :: ws[i] != []
    ensures Stream(f, ws).0 == Flatten(ws)[..PayloadIn(f.chunk, |Flatten(ws)|)]
    ensures Stream(f, ws).1.chunk == f.chunk - |Flatten(ws)|
    decreases |ws|
  {
    if ws != [] {
      var w := ws[0];
      var rest := ws[1..];
      assert Flatten(ws) == w + Flatten(rest);
      ChunkStep(f, ws);
      var g := Content(f, w + [NUL], 0, |w|).fields;
      if rest != [] {
        assert rest[0] != [] && Flatten(rest) == rest[0] + Flatten(rest[1..]);
        ChunkStream(g, rest);
      }
      PayloadInSplit(f.chunk, |w|, |Flatten(rest)|);
      PrefixJoin(w, Flatten(rest), PayloadIn(f.chunk, |w|), PayloadIn(g.chunk, |Flatten(rest)|));
    }
  }

  /** A chunk read to its end: the fragments are its payload, and the next size line is due. */
  lemma WholeChunk(f: Fields, ws: seq<seq<char>>, payload: seq<char>)
    requires f.chunk == |payload| + 2 && Flatten(ws) == payload + "\r\n"
    requires forall i | 0 <= i < |ws| :: ws[i] != []
    ensures Stream(f, ws).0 == payload && Stream(f, ws).1.chunk == 0
  {
    ChunkStream(f, ws);
    assert Flatten(ws)[..|payload|] == payload;
  }

  // ---------------------------------------------------------------------------
  // http_cut_trailing_crlf as written

  /** The cut as written differs from the corrected one in one case only: a one-byte fragment that completes its chunk. */
  lemma CutAsWrittenDiffers(chunk: int, length: int)
    ensures CutAsWritten(chunk, length) != Cut(chunk, length) <==> chunk == 0 && length == 1
  {
  }

  /**
   * The input that shows it: when the previous window ended after the CR of a
   * chunk's CRLF (state.chunk is 1) and the next window holds only the LF, the
   * whole window is taken with state.chunk becoming 0, where the cut as written
   * keeps the one byte: the LF would be delivered as a fragment of the body,
   * though there is no payload in the window.
   */
  lemma LoneLFAsWritten(f: Fields, b: seq<char>, bod: nat)
    requires Window(b, bod, bod + 1) && f.chunk == 1
    ensures var p := Content(f, b, bod, bod + 1);
      && p.next == Some(bod + 1) && p.fields.content == Some(bod) && p.fields.chunk == 0
      && CutAsWritten(p.fields.chunk, 1) == 1 && PayloadIn(f.chunk, 1) == 0
      && p.fields.length == 0
  {
  }
}
