/**
 * The incremental response decoder of http.c in its own imperative form:
 * struct http_message becomes class Message, with the 4096-byte buffer as an
 * array, and http_cut_trailing_crlf, http_parse_content, http_parse_message and
 * http_read become methods that change it in place. Each parse method is
 * proved to compute what the functions of module Decoder say, on the bytes the
 * buffer held when it was called. The socket is class Socket, whose recv hands
 * out what the peer sends.
 */
module Http {
  import opened Wrappers
  import opened Libc
  import opened Decoder

  /** Byte `i` of `now` is that of `was`, or a NUL written inside [from, to). */
  ghost predicate Kept(was: seq<char>, now: seq<char>, i: nat, from: nat, to: nat)
    requires i < |was| && i < |now|
  {
    now[i] == was[i] || (from <= i < to && now[i] == NUL)
  }

  /** The bytes of `now` differ from those of `was` only where a NUL was written inside [from, to). */
  ghost predicate Scribbled(was: seq<char>, now: seq<char>, from: nat, to: nat) {
    |now| == |was| && forall i | 0 <= i < |was| :: Kept(was, now, i, from, to)
  }

  /** What Scribbled says of one byte. */
  lemma ScribbledAt(was: seq<char>, now: seq<char>, from: nat, to: nat, i: nat)
    requires Scribbled(was, now, from, to) && i < |was|
    ensures now[i] == was[i] || (from <= i < to && now[i] == NUL)
  {
    assert Kept(was, now, i, from, to);
  }

  /** The bytes from the end of the scribbled range up to `hi` are those of `was`. */
  lemma ScribbledTail(was: seq<char>, now: seq<char>, from: nat, to: nat, hi: nat)
    requires Scribbled(was, now, from, to) && to <= hi < |was|
    ensures now[to..hi] == was[to..hi] && now[hi] == was[hi]
  {
    forall i | to <= i <= hi ensures now[i] == was[i] {
      assert Kept(was, now, i, from, to);
    }
  }

  /** Scribbling inside a range is scribbling inside any range around it. */
  lemma ScribbledWiden(a: seq<char>, b: seq<char>, from: nat, to: nat, from': nat, to': nat)
    requires Scribbled(a, b, from, to) && from' <= from && to <= to'
    ensures Scribbled(a, b, from', to')
  {
    forall i | 0 <= i < |a| ensures Kept(a, b, i, from', to') {
      assert Kept(a, b, i, from, to);
    }
  }

  /** Two rounds of scribbling are one, over a range that holds both of theirs. */
  lemma ScribbledTrans(a: seq<char>, b: seq<char>, c: seq<char>, from1: nat, to1: nat, from2: nat, to2: nat, from: nat, to: nat)
    requires Scribbled(a, b, from1, to1) && Scribbled(b, c, from2, to2)
    requires from <= from1 && from <= from2 && to1 <= to && to2 <= to
    ensures Scribbled(a, c, from, to)
  {
    forall i | 0 <= i < |a| ensures Kept(a, c, i, from, to) {
      assert Kept(a, b, i, from1, to1) && Kept(b, c, i, from2, to2);
    }
  }

  /** A single NUL written at `i` is scribbling inside any range that holds `i`. */
  lemma ScribbledStamp(a: seq<char>, i: nat, from: nat, to: nat)
    requires i < |a| && from <= i < to
    ensures Scribbled(a, a[i := NUL], from, to)
  {
    var b := a[i := NUL];
    forall j | 0 <= j < |a| ensures Kept(a, b, j, from, to) {
    }
  }

  /** No scribbling at all. */
  lemma ScribbledNone(a: seq<char>, from: nat, to: nat)
    ensures Scribbled(a, a, from, to)
  {
    forall j | 0 <= j < |a| ensures Kept(a, a, j, from, to) {
    }
  }

  /** Scribbling over an empty range changes nothing. */
  lemma ScribbledEmpty(a: seq<char>, b: seq<char>, k: nat)
    requires Scribbled(a, b, k, k)
    ensures a == b
  {
    forall i | 0 <= i < |a| ensures a[i] == b[i] {
      assert Kept(a, b, i, k, k);
    }
  }

  /** A buffer that agrees with `w` from `from` on still does from `to` on after scribbling inside [from, to). */
  lemma ScribbledSameFrom(w: seq<char>, a: seq<char>, b: seq<char>, from: nat, to: nat)
    requires SameFrom(w, a, from) && Scribbled(a, b, from, to) && from <= to
    ensures SameFrom(w, b, to)
  {
    forall i | to <= i < |w| ensures Same(w, b, i) {
      assert Same(w, a, i) && Kept(a, b, i, from, to);
    }
  }

  /** A buffer agrees with itself. */
  lemma SameFromSelf(w: seq<char>, from: nat)
    ensures SameFrom(w, w, from)
  {
    forall i | from <= i < |w| ensures Same(w, w, i) {
    }
  }

  lemma ConcatAssoc(a: seq<char>, b: seq<char>, c: seq<char>)
    ensures a + (b + c) == (a + b) + c
  {
  }

  function Min(a: nat, b: nat): nat {
    if a <= b then a else b
  }

  /**
   * The connected socket, seen from the decoder: what the peer will still send,
   * one element per recv that it satisfies. An empty element, or the end of the
   * sequence, is the peer closing the connection; a failing recv looks the same
   * to http_read, which stops on any result below 1.
   */
  class Socket {
    var segments: seq<seq<char>>
    /** The last recv delivered nothing. */
    var closed: bool

    constructor (segments: seq<seq<char>>)
      ensures this.segments == segments && !closed
    {
      this.segments := segments;
      closed := false;
    }

    /** recv(sd, buf, size, 0): at most `size` bytes of the next segment; the rest of it stays for the next call. */
    method Recv(size: nat) returns (data: seq<char>)
      modifies this
      ensures |data| <= size && closed == (data == [])
      ensures Flatten(old(segments)) == data + Flatten(segments)
      ensures old(segments) == [] ==> data == [] && segments == []
      ensures old(segments) != [] ==>
        var head := old(segments)[0];
        && data == head[..Min(size, |head|)]
        && segments == if size < |head| then [head[size..]] + old(segments)[1..] else old(segments)[1..]
    {
      if segments == [] {
        data := [];
      } else {
        var head := segments[0];
        var tail := segments[1..];
        assert Flatten(segments) == head + Flatten(tail);
        if size < |head| {
          data := head[..size];
          segments := [head[size..]] + tail;
          assert Flatten(segments) == head[size..] + Flatten(tail) by {
            assert segments[1..] == tail;
          }
          assert head == data + head[size..];
        } else {
          data := head;
          segments := tail;
        }
      }
      closed := data == [];
    }
  }

  /** struct http_message (http.h:4-25), without the unused fields `last` and `free`. */
  class Message {
    var code: int
    /** header.length: the Content-Length, -1 when none was given */
    var headerLength: int
    /** the fragment produced by the last call: `length` bytes of `buf` from index `content` */
    var content: Option<nat>
    var length: int
    var inContent: bool
    /** -1 for a body that is not chunked, else the bytes of the current chunk still to come */
    var chunk: int
    const buf: array<char>
    var size: int
    /** the start of the live bytes; None (NULL) until the first http_read */
    var offset: Option<nat>
    /** the number of live bytes */
    var left: int
    /** the number of fragment bytes delivered so far */
    var total: int

    /** What the parser sees of the struct. */
    function View(): Fields
      reads this
    {
      Fields(code, headerLength, content, length, inContent, chunk)
    }

    ghost predicate Valid()
      reads this, buf
    {
      && buf.Length == BUF_SIZE
      && buf[CAPACITY] == NUL
      && chunk >= -1 && length >= 0 && total >= 0
      && (offset.None? ==> left == 0 && total == 0)
      && (offset.Some? ==> size == CAPACITY && 0 <= left && offset.value + left <= CAPACITY)
    }

    /** A NUL follows the live bytes, as the parser's string scans need. */
    ghost predicate Terminated()
      requires Valid()
      reads this, buf
    {
      buf[offset.GetOr(0) + left] == NUL
    }

    /** The live bytes, the window [offset, offset + left). */
    ghost function Live(): seq<char>
      requires Valid()
      reads this, buf
    {
      buf[offset.GetOr(0)..offset.GetOr(0) + left]
    }

    /** The fragment was delivered intact from `was` and a NUL follows it. */
    ghost predicate Delivered(was: seq<char>)
      requires |was| == buf.Length
      reads this, buf
    {
      && content.Some? && 0 <= length && content.value + length < buf.Length
      && buf[content.value..content.value + length] == was[content.value..content.value + length]
      && buf[content.value + length] == NUL
    }

    /** A fragment delivered from `a` is delivered from any `b` that agrees with `a` from the fragment's start on. */
    lemma DeliveredFrom(a: seq<char>, b: seq<char>, from: nat)
      requires |a| == buf.Length && SameFrom(b, a, from)
      requires Delivered(a) && from <= content.value
      ensures |b| == buf.Length && Delivered(b)
    {
      SameSlice(b, a, from, content.value, content.value + length);
    }

    /**
     * A parse from fields `f` made progress on the window [at, eod) of `s`:
     * the offset moved to where it stopped, the bytes after it are still live,
     * unchanged and terminated, and the fragment it produced was added to the
     * total.
     */
    ghost predicate Progressed(f: Fields, s: seq<char>, at: nat, eod: nat, total0: int)
      requires Valid()
      reads this, buf
    {
      && Terminated() && offset.Some?
      && |s| == BUF_SIZE && Window(s, at, eod)
      && at < offset.value <= eod && offset.value + left == eod
      && Decoder.Message(f, s, at, eod) == Parse(Some(offset.value), View())
      && Live() == s[offset.value..eod]
      && total == total0 + length && length >= 0
      && (length > 0 ==> Delivered(s))
    }

    /** The all-zero struct that a caller of http_read must start from. */
    constructor ()
      ensures fresh(buf) && Valid() && Terminated()
      ensures View() == Fields(0, 0, None, 0, false, 0)
      ensures size == 0 && offset == None && left == 0 && total == 0
      ensures forall i | 0 <= i < buf.Length :: buf[i] == NUL
    {
      code, headerLength, content, length, inContent, chunk := 0, 0, None, 0, false, 0;
      buf := new char[BUF_SIZE](_ => NUL);
      size, offset, left, total := 0, None, 0, 0;
    }

    /** http_cut_trailing_crlf (http.c:176-185), with the one-byte case corrected: see Decoder.Cut. */
    method CutTrailingCrlf()
      requires buf.Length == BUF_SIZE && length >= 0
      requires length > 0 ==> content.Some? && content.value + length < BUF_SIZE
      modifies this`length, buf
      ensures length == Cut(chunk, old(length))
      ensures length != old(length) ==> buf[..] == old(buf[..])[content.value + length := NUL]
      ensures length == old(length) ==> buf[..] == old(buf[..])
    {
      if chunk == 1 && length > 0 {
        // cut off just the CR
        length := length - 1;
        buf[content.value + length] := NUL;
      } else if chunk == 0 && length > 0 {
        // cut off the CR/LF, or the LF alone
        length := if length > 1 then length - 2 else 0;
        buf[content.value + length] := NUL;
      }
    }

    /** The payload and CRLF of a chunk, from `from` on in a window that ends at `eod` (http.c:247-261). */
    method TakeChunkData(from: nat, eod: nat) returns (next: nat)
      requires buf.Length == BUF_SIZE && from <= eod < BUF_SIZE && buf[eod] == NUL && chunk >= 2
      modifies this`content, this`length, this`chunk, buf
      ensures ChunkData(old(View()), from, eod) == Parse(Some(next), View())
      ensures Scribbled(old(buf[..]), buf[..], from, next)
      ensures content == Some(from) && Delivered(old(buf[..]))
    {
      content := Some(from);
      var len := eod - from;
      if chunk < len {
        // the chunk ends in this window and another one starts
        length := chunk;
        next := from + chunk;
        chunk := 0;
      } else {
        // the next chunk-size line is beyond this window
        length := len;
        chunk := chunk - len;
        next := eod;
      }
      CutTrailingCrlf();
    }

    /**
     * The chunk-size line of http.c:228-262 at the front of the window
     * [bod, eod) of `w`, entered with chunk == 0; the buffer still holds the
     * bytes of `w` from `bod` on.
     */
    method ParseChunkHeader(bod: nat, eod: nat, ghost w: seq<char>) returns (next: nat)
      requires buf.Length == BUF_SIZE && Window(w, bod, eod) && SameFrom(w, buf[..], bod) && chunk == 0
      modifies this`content, this`length, this`chunk, buf
      ensures ChunkHeader(old(View()), w, bod, eod) == Parse(Some(next), View())
      ensures Scribbled(old(buf[..]), buf[..], bod, next)
      ensures next != bod ==> Delivered(w)
    {
      ghost var v0 := buf[..];
      StrChrAtFrame(w, buf[..], bod, '\n');
      var eoc := StrChrAt(buf[..], bod, '\n');
      if eoc.None? {
        next := bod;
        return;
      }
      FoundInWindow(w, bod, eod, '\n');
      var e := eoc.value;
      ScanHexAtFrame(w, buf[..], bod, e);
      // the scan stops at e, where the C code writes its NUL first; sscanf
      // assigns nothing when there is no digit, so chunk stays 0
      chunk := ScanHexAt(buf[..], bod, e).GetOr(chunk);
      ScribbledNone(v0, bod, e + 1);
      Stamp(e, v0, bod, e + 1);
      chunk := chunk + 2;
      ghost var v := buf[..];
      assert Same(w, v0, eod);
      next := TakeChunkData(e + 1, eod);
      ScribbledTrans(v0, v, buf[..], bod, e + 1, e + 1, next, bod, next);
      ScribbledSameFrom(w, v0, v, bod, e + 1);
      DeliveredFrom(v, w, e + 1);
    }

    /** http_parse_content (http.c:194-277) on the window [bod, eod) of `w`. */
    method ParseContent(bod: nat, eod: nat, ghost w: seq<char>) returns (next: nat)
      requires buf.Length == BUF_SIZE && Window(w, bod, eod) && SameFrom(w, buf[..], bod) && length >= 0
      modifies this`content, this`length, this`chunk, buf
      ensures Content(old(View()), w, bod, eod) == Parse(Some(next), View())
      ensures Scribbled(old(buf[..]), buf[..], bod, next)
      ensures old(length) == 0 && length > 0 ==> Delivered(w)
    {
      // is the body chunked, and does the current chunk stop in this window?
      if chunk > -1 && chunk < eod - bod {
        if chunk > 0 {
          next := RestOfChunk(bod, eod, w);
        } else {
          next := ParseChunkHeader(bod, eod, w);
        }
      } else {
        next := WholeWindow(bod, eod, w);
      }
    }

    /** The end of a chunk inside the window (http.c:206-226): its last payload bytes, or its lone LF. */
    method RestOfChunk(bod: nat, eod: nat, ghost w: seq<char>) returns (next: nat)
      requires buf.Length == BUF_SIZE && Window(w, bod, eod) && SameFrom(w, buf[..], bod) && length >= 0
      requires 0 < chunk < eod - bod
      modifies this`content, this`length, this`chunk, buf
      ensures Content(old(View()), w, bod, eod) == Parse(Some(next), View())
      ensures Scribbled(old(buf[..]), buf[..], bod, next)
      ensures old(length) == 0 && length > 0 ==> Delivered(w)
    {
      ghost var v0 := buf[..];
      if chunk == 1 {
        // skip the trailing LF of the previous chunk
        next := bod + 1;
        length := 0;
        chunk := 0;
        ScribbledNone(v0, bod, next);
      } else {
        // deliver the rest of the chunk before the next chunk-size line
        length := chunk;
        content := Some(bod);
        next := bod + chunk;
        chunk := 0;
        CutTrailingCrlf();
        if length > 0 {
          DeliveredFrom(v0, w, bod);
        }
      }
    }

    /** The whole window belongs to the body or to the current chunk (http.c:264-276). */
    method WholeWindow(bod: nat, eod: nat, ghost w: seq<char>) returns (next: nat)
      requires buf.Length == BUF_SIZE && Window(w, bod, eod) && SameFrom(w, buf[..], bod) && length >= 0
      requires !(chunk > -1 && chunk < eod - bod)
      modifies this`content, this`length, this`chunk, buf
      ensures Content(old(View()), w, bod, eod) == Parse(Some(next), View())
      ensures Scribbled(old(buf[..]), buf[..], bod, next)
      ensures old(length) == 0 && length > 0 ==> Delivered(w)
    {
      ghost var v0 := buf[..];
      assert Same(w, v0, eod);
      var len := eod - bod;
      if chunk > -1 {
        chunk := chunk - len;
      }
      content := Some(bod);
      length := len;
      CutTrailingCrlf();
      next := eod;
      if length > 0 {
        DeliveredFrom(v0, w, bod);
      }
    }

    /** Writes one NUL into the buffer, inside the range that a caller may scribble on. */
    method Stamp(i: nat, ghost was: seq<char>, ghost from: nat, ghost to: nat)
      requires i < buf.Length && from <= i < to && Scribbled(was, buf[..], from, to)
      modifies buf
      ensures Scribbled(was, buf[..], from, to)
      ensures buf[..] == old(buf[..])[i := NUL]
    {
      ghost var v := buf[..];
      buf[i] := NUL;
      assert buf[..] == v[i := NUL];
      ScribbledStamp(v, i, from, to);
      ScribbledTrans(was, v, buf[..], from, to, from, to, from, to);
    }

    /**
     * The NULs written by `*value = 0` and the two strtok calls of http.c:343-350,
     * on the line buf[cur..lf] whose first ':' is at `c`: one at the colon and
     * one at the end of each token, where a delimiter follows it.
     */
    method TerminateTokens(cur: nat, c: nat, ne: nat, ve: nat, lf: nat)
      requires buf.Length == BUF_SIZE && cur <= ne <= c < ve <= lf < BUF_SIZE
      modifies buf
      ensures Scribbled(old(buf[..]), buf[..], cur, lf)
    {
      ghost var v := buf[..];
      ScribbledNone(v, cur, lf);
      Stamp(c, v, cur, lf);
      if ne < c {
        Stamp(ne, v, cur, lf);
      }
      if ve < lf {
        Stamp(ve, v, cur, lf);
      }
    }

    /**
     * The body of the header loop for one line buf[cur..lf] (http.c:339-358):
     * the line is read as HeaderAt reads it, and NULs are written only inside it.
     */
    method ReadHeaderLine(cur: nat, lf: nat)
      requires buf.Length == BUF_SIZE && cur <= lf < BUF_SIZE
      modifies this`chunk, this`headerLength, buf
      ensures View() == HeaderAt(old(View()), old(buf[..]), cur, lf)
      ensures Scribbled(old(buf[..]), buf[..], cur, lf)
    {
      var b := buf[..];
      var colon := Colon(b, cur, lf);
      if colon.None? {
        ScribbledNone(b, cur, lf);
        return;
      }
      var c := colon.value;
      // the name and the value: the first token on each side of the colon
      var ns := Span(b, cur, c, Delim);
      var ne := Span(b, ns, c, TokenChar);
      var vs := Span(b, c + 1, lf, Delim);
      var ve := Span(b, vs, lf, TokenChar);
      TerminateTokens(cur, c, ne, ve, lf);
      if ChunkedHeader(b, ns, ne, vs, ve) {
        // 0 bytes until the next chunk-size line
        chunk := 0;
      } else if LengthHeader(b, ns, ne) {
        headerLength := AtoiIn(b, vs, ve);
      }
    }

    /**
     * http_parse_message (http.c:286-362) on the window [bod, eod) of `w`, the
     * buffer as the parse found it; None is NULL, a bad status line.
     */
    method ParseMessage(bod: nat, eod: nat, ghost w: seq<char>) returns (next: Option<nat>)
      requires buf.Length == BUF_SIZE && Window(w, bod, eod) && SameFrom(w, buf[..], bod) && length >= 0
      modifies this`code, this`headerLength, this`content, this`length, this`inContent, this`chunk, buf
      ensures Decoder.Message(old(View()), w, bod, eod) == Parse(next, View())
      ensures Scribbled(old(buf[..]), buf[..], bod, next.GetOr(bod))
      ensures old(length) == 0 && length > 0 ==> Delivered(w)
      decreases eod - bod, 2
    {
      ghost var f := View();
      if inContent {
        var n := ParseContent(bod, eod, w);
        return Some(n);
      }
      // the line is incomplete, so more data must be fetched
      StrChrAtFrame(w, buf[..], bod, '\n');
      var lf := StrChrAt(buf[..], bod, '\n');
      if lf.None? {
        ScribbledNone(buf[..], bod, bod);
        return Some(bod);
      }
      FoundInWindow(w, bod, eod, '\n');
      if code == 0 {
        next := ParseStatus(bod, lf.value, eod, w);
      } else {
        MessageHeaders(f, w, bod, eod, lf.value);
        next := ParseHeaders(bod, lf.value, eod, w);
      }
    }

    /**
     * The status line of http.c:305-317, w[bod..lf] with its LF at `lf`: only
     * HTTP/1.0 and HTTP/1.1 are accepted, and the number after them is the code.
     */
    method ParseStatus(bod: nat, lf: nat, eod: nat, ghost w: seq<char>) returns (next: Option<nat>)
      requires buf.Length == BUF_SIZE && Window(w, bod, eod) && SameFrom(w, buf[..], bod) && length >= 0
      requires code == 0 && !inContent && StrChrAt(w, bod, '\n') == Some(lf)
      modifies this`code, this`headerLength, this`content, this`length, this`inContent, this`chunk, buf
      ensures Decoder.Message(old(View()), w, bod, eod) == Parse(next, View())
      ensures Scribbled(old(buf[..]), buf[..], bod, next.GetOr(bod))
      ensures old(length) == 0 && length > 0 ==> Delivered(w)
      decreases eod - bod, 1
    {
      ghost var v0 := buf[..];
      ghost var f := View();
      FoundInWindow(w, bod, eod, '\n');
      StatusAtFrame(w, v0, bod, lf);
      // accept HTTP/1.[01] only
      if !StatusAt(buf[..], bod, lf) {
        MessageBadStatus(f, w, bod, eod, lf);
        ScribbledNone(v0, bod, bod);
        return None;
      }
      next := AcceptStatus(bod, lf, eod, w);
    }

    /** An accepted status line w[bod..lf] (http.c:313-316): the code after "HTTP/1.x" is read and the next line parsed. */
    method AcceptStatus(bod: nat, lf: nat, eod: nat, ghost w: seq<char>) returns (next: Option<nat>)
      requires buf.Length == BUF_SIZE && Window(w, bod, eod) && SameFrom(w, buf[..], bod) && length >= 0
      requires code == 0 && !inContent && StrChrAt(w, bod, '\n') == Some(lf) && StatusAt(w, bod, lf)
      modifies this`code, this`headerLength, this`content, this`length, this`inContent, this`chunk, buf
      ensures Decoder.Message(old(View()), w, bod, eod) == Parse(next, View())
      ensures Scribbled(old(buf[..]), buf[..], bod, next.GetOr(bod))
      ensures old(length) == 0 && length > 0 ==> Delivered(w)
      decreases eod - bod, 0
    {
      ghost var v0 := buf[..];
      MessageStatus(View(), w, bod, eod, lf);
      SameLater(w, v0, bod, bod + 8);
      AtoiAtFrame(w, v0, bod + 8);
      code := AtoiAt(buf[..], bod + 8);
      SameLater(w, v0, bod, lf + 1);
      next := ParseMessage(lf + 1, eod, w);
      if next.None? {
        ScribbledEmpty(v0, buf[..], lf + 1);
        ScribbledNone(v0, bod, bod);
      } else {
        ScribbledWiden(v0, buf[..], lf + 1, next.value, bod, next.value);
      }
    }

    /**
     * The header loop of http.c:320-361, from the line w[bod..lf] on, whose LF
     * is at `lf`: each line is cut at its LF and read, until an empty line or a
     * lone CR hands the rest of the window to the body, or no LF is left.
     */
    method ParseHeaders(bod: nat, lf: nat, eod: nat, ghost w: seq<char>) returns (next: Option<nat>)
      requires buf.Length == BUF_SIZE && Window(w, bod, eod) && SameFrom(w, buf[..], bod) && length >= 0
      requires bod <= lf < eod && code != 0 && !inContent
      modifies this`code, this`headerLength, this`content, this`length, this`inContent, this`chunk, buf
      ensures Headers(old(View()), w, bod, lf, eod) == Parse(next, View())
      ensures Scribbled(old(buf[..]), buf[..], bod, next.GetOr(bod))
      ensures old(length) == 0 && length > 0 ==> Delivered(w)
      decreases eod - bod, 1
    {
      ghost var v0 := buf[..];
      ghost var f := View();
      ghost var goal := Headers(f, w, bod, lf, eod);
      ScribbledNone(v0, bod, bod);
      var cur := bod;
      var end := lf;
      while true
        invariant bod <= cur <= end < eod
        invariant code != 0 && !inContent && length == f.length
        invariant Headers(View(), w, cur, end, eod) == goal
        invariant SameFrom(w, buf[..], cur)
        invariant Scribbled(v0, buf[..], bod, cur)
        decreases eod - cur
      {
        ghost var g := View();
        ghost var v := buf[..];
        assert end > cur ==> Same(w, v, cur);
        // the end of the headers: an empty line or a lone CR
        if end == cur || (end == cur + 1 && buf[cur] == '\r') {
          next := EndOfHeaders(cur, end, eod, w, goal);
          ScribbledTrans(v0, v, buf[..], bod, cur, cur, next.value, bod, next.value);
          return;
        }
        var nl := HeaderStep(cur, end, eod, w, goal);
        ScribbledTrans(v0, v, buf[..], bod, cur, cur, end + 1, bod, end + 1);
        cur := end + 1;
        if nl.None? {
          return Some(cur);
        }
        end := nl.value;
      }
    }

    /**
     * The end of the headers (http.c:326-337): the line w[cur..lf] is empty or
     * a lone CR; it is cut at its LF and the rest of the window goes to the body.
     */
    method EndOfHeaders(cur: nat, lf: nat, eod: nat, ghost w: seq<char>, ghost goal: Parse) returns (next: Option<nat>)
      requires buf.Length == BUF_SIZE && Window(w, cur, eod) && SameFrom(w, buf[..], cur) && length >= 0
      requires cur <= lf < eod && code != 0 && !inContent && BlankAt(w, cur, lf)
      requires Headers(View(), w, cur, lf, eod) == goal
      modifies this`code, this`headerLength, this`content, this`length, this`inContent, this`chunk, buf
      ensures goal == Parse(next, View())
      ensures next.Some? && Scribbled(old(buf[..]), buf[..], cur, next.value)
      ensures old(length) == 0 && length > 0 ==> Delivered(w)
      decreases eod - cur, 0
    {
      ghost var v0 := buf[..];
      HeadersEnd(View(), w, cur, lf, eod);
      ScribbledNone(v0, cur, lf + 1);
      Stamp(lf, v0, cur, lf + 1);
      ScribbledSameFrom(w, v0, buf[..], cur, lf + 1);
      inContent := true;
      ghost var u := buf[..];
      next := ParseMessage(lf + 1, eod, w);
      ScribbledTrans(v0, u, buf[..], cur, lf + 1, lf + 1, next.value, cur, next.value);
    }

    /** One pass of the header loop over a line that is not blank: the line is read and the next LF looked up. */
    method HeaderStep(cur: nat, lf: nat, eod: nat, ghost w: seq<char>, ghost goal: Parse) returns (nl: Option<nat>)
      requires buf.Length == BUF_SIZE && Window(w, cur, eod) && SameFrom(w, buf[..], cur)
      requires cur <= lf < eod && code != 0 && !inContent && !BlankAt(w, cur, lf)
      requires Headers(View(), w, cur, lf, eod) == goal
      modifies this`chunk, this`headerLength, buf
      ensures code == old(code) && inContent == old(inContent) && length == old(length)
      ensures nl.None? ==> goal == Parse(Some(lf + 1), View())
      ensures nl.Some? ==> lf + 1 <= nl.value < eod && Headers(View(), w, lf + 1, nl.value, eod) == goal
      ensures Scribbled(old(buf[..]), buf[..], cur, lf + 1) && SameFrom(w, buf[..], lf + 1)
    {
      HeadersNext(View(), w, cur, lf, eod);
      nl := NextHeaderLine(cur, lf, w);
      if nl.Some? {
        FoundInWindow(w, lf + 1, eod, '\n');
      }
    }

    /**
     * A header line other than the last (http.c:339-360): w[cur..lf] is cut at
     * its LF at `lf` and read, and the next LF is looked for after it.
     */
    method NextHeaderLine(cur: nat, lf: nat, ghost w: seq<char>) returns (nl: Option<nat>)
      requires buf.Length == BUF_SIZE && cur <= lf < BUF_SIZE - 1 && SameFrom(w, buf[..], cur)
      modifies this`chunk, this`headerLength, buf
      ensures View() == HeaderAt(old(View()), w, cur, lf)
      ensures Scribbled(old(buf[..]), buf[..], cur, lf + 1)
      ensures SameFrom(w, buf[..], lf + 1)
      ensures nl == StrChrAt(w, lf + 1, '\n')
    {
      ghost var v0 := buf[..];
      ScribbledNone(v0, cur, lf + 1);
      Stamp(lf, v0, cur, lf + 1);
      ghost var v := buf[..];
      SameFromIn(w, v0, cur, cur, lf);
      assert SameIn(w, v, cur, lf) by {
        forall i | cur <= i < lf ensures Same(w, v, i) {
          assert Same(w, v0, i);
        }
      }
      HeaderAtFrame(View(), w, v, cur, lf);
      ReadHeaderLine(cur, lf);
      ScribbledTrans(v0, v, buf[..], cur, lf + 1, cur, lf, cur, lf + 1);
      ScribbledSameFrom(w, v0, buf[..], cur, lf + 1);
      StrChrAtFrame(w, buf[..], lf + 1, '\n');
      nl := StrChrAt(buf[..], lf + 1, '\n');
    }

    /** The memmove of http.c:420-428: the live bytes go to the front of the buffer. */
    method MoveToFront()
      requires Valid() && offset.Some?
      modifies this`offset, buf
      ensures Valid() && offset == Some(0) && left == old(left)
      ensures Live() == old(Live())
      ensures forall i | left <= i < BUF_SIZE :: buf[i] == old(buf[i])
    {
      var from := offset.value;
      if from > 0 {
        if left > 0 {
          forall i | 0 <= i < left {
            buf[i] := buf[from + i];
          }
        }
        offset := Some(0);
      }
    }

    /** The memcpy of http.c:437-450: with no room left, the first half of the buffer is dropped. */
    method DropHalf()
      requires Valid() && offset == Some(0) && left == size
      modifies this`left, buf
      ensures Valid() && offset == Some(0) && left == CAPACITY / 2
      ensures Live() == old(buf[CAPACITY / 2..2 * (CAPACITY / 2)])
      ensures forall i | left <= i < BUF_SIZE :: buf[i] == old(buf[i])
    {
      var half := size / 2;
      forall i | 0 <= i < half {
        buf[i] := buf[half + i];
      }
      left := half;
    }

    /** What recv writes at the end of the live bytes, and the NUL http.c:461 puts after it. */
    method Append(data: seq<char>)
      requires Valid() && offset == Some(0) && left + |data| <= CAPACITY
      modifies this`left, buf
      ensures Valid() && Terminated() && offset == Some(0)
      ensures Live() == old(Live()) + data
    {
      forall i | 0 <= i < |data| {
        buf[left + i] := data[i];
      }
      buf[left + |data|] := NUL;
      left := left + |data|;
      assert Live() == old(Live()) + data;
    }

    /**
     * The parse attempt of http.c:400-417 on the live bytes: it counts as
     * progress only when the parse returns a position past the offset, and then
     * the offset moves there and the fragment is added to the total.
     */
    method ParseBuffered() returns (progressed: bool, ghost s: seq<char>)
      requires Valid() && Terminated() && offset.Some? && size == CAPACITY && left > 0
      modifies this`code, this`headerLength, this`content, this`length, this`inContent, this`chunk
      modifies this`offset, this`left, this`total, buf
      ensures Valid() && offset.Some? && size == CAPACITY
      ensures !progressed ==>
        && buf[..] == old(buf[..]) && offset == old(offset) && left == old(left) && total == old(total)
        && View() == old(View()).(length := 0)
      ensures progressed ==>
        && s == old(buf[..])
        && Progressed(old(View()).(length := 0), s, old(offset.value), old(offset.value) + old(left), old(total))
        && s[old(offset.value)..old(offset.value) + old(left)] == old(Live())
    {
      var off := offset.value;
      var end := off + left;
      s := buf[..];
      SameFromSelf(s, off);
      length := 0;
      MessageSound(View(), s, off, end);
      var parsedUntil := ParseMessage(off, end, s);
      progressed := parsedUntil.Some? && parsedUntil.value > off;
      if progressed {
        ScribbledAt(s, buf[..], off, parsedUntil.value, CAPACITY);
        Advance(parsedUntil.value, old(View()).(length := 0), s);
      } else {
        ScribbledEmpty(s, buf[..], off);
      }
    }

    /**
     * The live bytes after a refill that found `live0`: `live0` followed by the
     * received `data`, or, when the full buffer was halved first, the half of
     * `live0` that the drop keeps followed by `data`.
     */
    ghost predicate Refilled(live0: seq<char>, data: seq<char>, dropped: bool)
      requires Valid()
      reads this, buf
    {
      if dropped then |live0| == CAPACITY && Live() == live0[CAPACITY / 2..2 * (CAPACITY / 2)] + data
      else Live() == live0 + data
    }

    /**
     * The bookkeeping of http.c:412-414 after a parse of the live bytes of `s`
     * from fields `f` stopped at `next`, past the offset: the offset moves
     * there, the bytes parsed leave the window, and the fragment is counted.
     */
    method Advance(next: nat, ghost f: Fields, ghost s: seq<char>)
      requires Valid() && offset.Some? && size == CAPACITY && |s| == BUF_SIZE
      requires Window(s, offset.value, offset.value + left) && offset.value < next <= offset.value + left
      requires Decoder.Message(f, s, offset.value, offset.value + left) == Parse(Some(next), View())
      requires Scribbled(s, buf[..], offset.value, next)
      requires length > 0 ==> Delivered(s)
      modifies this`offset, this`left, this`total
      ensures Valid() && offset == Some(next) && size == CAPACITY
      ensures Progressed(f, s, old(offset.value), old(offset.value + left), old(total))
    {
      ScribbledTail(s, buf[..], offset.value, next, offset.value + left);
      left := left - (next - offset.value);
      offset := Some(next);
      total := total + length;
    }

    /**
     * The refill of http.c:419-463: the live bytes move to the front, half the
     * buffer is dropped when it is full, and recv appends what the peer sends,
     * followed by a NUL; `data` is empty when the peer closed.
     */
    method Receive(sd: Socket) returns (data: seq<char>, ghost dropped: bool)
      requires Valid() && offset.Some? && size == CAPACITY
      modifies this`offset, this`left, buf, sd
      ensures Valid() && offset == Some(0)
      ensures Flatten(old(sd.segments)) == data + Flatten(sd.segments) && sd.closed == (data == [])
      ensures data != [] ==> Terminated()
      ensures Refilled(old(Live()), data, dropped)
    {
      dropped := false;
      ghost var live0 := Live();
      // make the live bytes begin at the front of the buffer
      MoveToFront();
      var free := CAPACITY - left;
      if free < 1 {
        // drop half of the buffer if there is no space left
        assert buf[CAPACITY / 2..2 * (CAPACITY / 2)] == live0[CAPACITY / 2..2 * (CAPACITY / 2)];
        DropHalf();
        dropped := true;
        free := CAPACITY - left;
      }
      data := sd.Recv(free);
      if data != [] {
        Append(data);
      }
    }

    /**
     * One pass of the loop of http.c:399-464: a parse attempt on the live
     * bytes, and when it makes no progress, one refill. `done` says that
     * http_read returns `r` here; otherwise `data` was appended and the loop goes on.
     */
    method Pass(sd: Socket)
      returns (done: bool, r: int, ghost at: nat, ghost eod: nat, ghost s: seq<char>, data: seq<char>, ghost dropped: bool)
      requires Valid() && Terminated() && offset.Some? && size == CAPACITY
      modifies this, buf, sd
      ensures Valid() && offset.Some? && size == CAPACITY
      ensures Flatten(old(sd.segments)) == data + Flatten(sd.segments)
      ensures done && r == 1 ==>
        && data == []
        && Progressed(old(View()).(length := 0), s, at, eod, old(total))
        && s[at..eod] == old(Live())
      ensures done ==> r == 1 || (r == 0 && data == [] && sd.closed)
      ensures !(done && r == 1) ==>
        && total == old(total) && View().(length := 0) == old(View()).(length := 0)
        && Refilled(old(Live()), data, dropped)
      ensures !done ==> Terminated() && data != []
    {
      at, eod, s, data, dropped := 0, 0, [], [], false;
      // try to parse the buffer first if there is still data in it
      if left > 0 {
        ghost var off := offset.value;
        ghost var end := off + left;
        var progressed;
        progressed, s := ParseBuffered();
        if progressed {
          return true, 1, off, end, s, data, dropped;
        }
      }
      // wait for and read new data from the network
      data, dropped := Receive(sd);
      if data == [] {
        // the peer closed the connection
        return true, 0, at, eod, s, data, dropped;
      }
      done, r := false, 0;
    }

    /**
     * The loop of http.c:399-464: parse what is buffered, and receive more
     * while that makes no progress; 1 when a parse made progress, 0 when the
     * peer closed first.
     */
    method Await(sd: Socket)
      returns (r: int, ghost at: nat, ghost eod: nat, ghost s: seq<char>, ghost received: seq<char>, ghost dropped: bool)
      requires Valid() && Terminated() && offset.Some? && size == CAPACITY
      modifies this, buf, sd
      ensures Flatten(old(sd.segments)) == received + Flatten(sd.segments)
      ensures (r == 0 || r == 1) && Valid() && offset.Some? && size == CAPACITY
      ensures r == 0 ==>
        && sd.closed && total == old(total) && View().(length := 0) == old(View()).(length := 0)
        && (!dropped ==> Live() == old(Live()) + received)
      ensures r == 1 ==>
        && Progressed(old(View()).(length := 0), s, at, eod, old(total))
        && (!dropped ==> s[at..eod] == old(Live()) + received)
    {
      received, dropped := [], false;
      ghost var f0 := View();
      ghost var live0 := Live();
      while true
        invariant Valid() && Terminated() && offset.Some? && size == CAPACITY
        invariant View().(length := 0) == f0.(length := 0) && total == old(total)
        invariant Flatten(old(sd.segments)) == received + Flatten(sd.segments)
        invariant !dropped ==> Live() == live0 + received
        decreases |Flatten(sd.segments)|
      {
        var done, data;
        ghost var d;
        done, r, at, eod, s, data, d := Pass(sd);
        ConcatAssoc(received, data, Flatten(sd.segments));
        if !dropped && !d {
          ConcatAssoc(live0, received, data);
        }
        dropped := dropped || d;
        received := received + data;
        if done {
          return;
        }
      }
    }
  }

  /** The fields after the first-time initialisation of http.c:378-392, which runs while `offset` is NULL. */
  function Started(offset: Option<nat>, f: Fields): (g: Fields)
    ensures offset.None? ==> g.chunk == -1 && g.headerLength == -1
    ensures offset.Some? ==> g == f
    ensures g == f.(chunk := g.chunk, headerLength := g.headerLength)
  {
    if offset.None? then f.(chunk := -1, headerLength := -1) else f
  }

  /**
   * http_read (http.c:372-467). Returns -1 for a null message, 0 when the body is
   * complete (the delivered total equals header.length) or the peer closed, and
   * 1 with the next fragment in msg.content and msg.length. The ghost results
   * describe the run: `received` is what recv delivered; when it returns 1, the
   * last parse ran on the window [at, eod) of `s`, the buffer as it was then;
   * `dropped` says that the buffer ran full and its first half was dropped.
   */
  method Read(sd: Socket, msg: Message?)
    returns (r: int, ghost at: nat, ghost eod: nat, ghost s: seq<char>, ghost received: seq<char>, ghost dropped: bool)
    requires msg != null ==> msg.Valid() && msg.Terminated()
    modifies sd, if msg == null then {} else {msg, msg.buf}
    ensures Flatten(old(sd.segments)) == received + Flatten(sd.segments)
    ensures msg == null ==> r == -1 && received == []
    ensures msg != null ==> (r == 0 || r == 1) && msg.Valid() && msg.offset.Some? && msg.size == CAPACITY
    ensures msg != null && old(msg.offset).Some? && old(msg.total) == old(msg.headerLength) ==>
      r == 0 && received == [] && unchanged(msg) && unchanged(msg.buf)
    ensures msg != null && r == 0 && !(old(msg.offset).Some? && old(msg.total) == old(msg.headerLength)) ==>
      && sd.closed && msg.total == old(msg.total)
      && msg.View().(length := 0) == Started(old(msg.offset), old(msg.View())).(length := 0)
      && (!dropped ==> msg.Live() == old(msg.Live()) + received)
    ensures msg != null && r == 1 ==>
      && msg.Progressed(Started(old(msg.offset), old(msg.View())).(length := 0), s, at, eod, old(msg.total))
      && (!dropped ==> s[at..eod] == old(msg.Live()) + received)
  {
    at, eod, s, received, dropped := 0, 0, [], [], false;
    if msg == null {
      return -1, at, eod, s, received, dropped;
    }
    ghost var live0 := msg.Live();
    // first-time initialisation
    if msg.offset.None? {
      msg.size := CAPACITY;
      msg.offset := Some(0);
      msg.chunk := -1;
      msg.headerLength := -1;
    }
    ghost var f0 := msg.View();
    assert f0 == Started(old(msg.offset), old(msg.View())).(length := f0.length);
    if msg.total == msg.headerLength {
      // return 0 for keep-alive connections
      return 0, at, eod, s, received, dropped;
    }
    r, at, eod, s, received, dropped := msg.Await(sd);
  }
}
