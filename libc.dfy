/**
 * The C library routines that the decoder and the URL splitter call, as pure
 * functions on byte sequences. A C string is the prefix of a sequence up to its
 * first NUL; every scan below stops there, as the C routine does.
 */
module Libc {
  import opened Wrappers

  const NUL: char := '\0'

  /**
   * Byte `i` of `b` is neither `c` nor the terminator. The scans below state
   * what they passed over with this predicate, so that their postconditions
   * are only instantiated at the bytes a proof asks about.
   */
  predicate Avoids(b: seq<char>, i: nat, c: char)
    requires i < |b|
  {
    b[i] != c && b[i] != NUL
  }

  /** No byte of s[..k] is `c` and none is the terminator. */
  ghost predicate ClearBefore(s: seq<char>, k: nat, c: char)
    requires k <= |s|
  {
    forall i | 0 <= i < k :: Avoids(s, i, c)
  }

  /** The position of the terminator of the C string that starts at `from` in `b` (or |b| when there is none). */
  function StrEnd(b: seq<char>, from: nat): (n: nat)
    requires from <= |b|
    ensures from <= n <= |b| && (forall i | from <= i < n :: Avoids(b, i, NUL))
    ensures n < |b| ==> b[n] == NUL
    decreases |b| - from
  {
    if from == |b| || b[from] == NUL then from else StrEnd(b, from + 1)
  }

  /** strlen: the length of the C string held by `s`. */
  function StrLen(s: seq<char>): (n: nat)
    ensures n <= |s| && (forall i | 0 <= i < n :: Avoids(s, i, NUL))
    ensures n < |s| ==> s[n] == NUL
  {
    StrEnd(s, 0)
  }

  /**
   * strchr(p, c) for a non-NUL `c` and a pointer `p` to position `from` of the
   * buffer `b`: the position of the first `c` before the terminator.
   */
  function StrChrAt(b: seq<char>, from: nat, c: char): (r: Option<nat>)
    requires c != NUL && from <= |b|
    ensures r.Some? ==> from <= r.value < |b| && b[r.value] == c
    ensures r.Some? ==> forall i | from <= i < r.value :: Avoids(b, i, c)
    ensures r.None? ==> forall i | from <= i < StrEnd(b, from) :: Avoids(b, i, c)
    decreases |b| - from
  {
    if from == |b| || b[from] == NUL then None
    else if b[from] == c then Some(from)
    else StrChrAt(b, from + 1, c)
  }

  /** strchr(s, c) for a non-NUL `c`: the index of the first `c` before the terminator. */
  function StrChr(s: seq<char>, c: char): (r: Option<nat>)
    requires c != NUL
    ensures r.Some? ==> r.value < |s| && s[r.value] == c && ClearBefore(s, r.value, c)
    ensures r.None? ==> forall i | 0 <= i < StrLen(s) :: Avoids(s, i, c)
  {
    StrChrAt(s, 0, c)
  }

  /** `pat` occurs in `s` at index `i`. */
  predicate OccursAt(s: seq<char>, pat: seq<char>, i: nat) {
    i + |pat| <= |s| && s[i..i + |pat|] == pat
  }

  /** The first occurrence of `pat` in `s` at or after position `from`. */
  function StrStrFrom(s: seq<char>, pat: seq<char>, from: nat): (r: Option<nat>)
    requires from <= |s|
    ensures r.Some? ==> from <= r.value && OccursAt(s, pat, r.value)
    ensures r.Some? ==> forall i: nat | from <= i < r.value :: !OccursAt(s, pat, i)
    ensures r.None? ==> forall i: nat | from <= i :: !OccursAt(s, pat, i)
    decreases |s| - from
  {
    if |s| - from < |pat| then None
    else if OccursAt(s, pat, from) then Some(from)
    else StrStrFrom(s, pat, from + 1)
  }

  /** strstr(s, pat) on a NUL-free `s`: the index of the first occurrence of `pat`. */
  function StrStr(s: seq<char>, pat: seq<char>): (r: Option<nat>)
    ensures r.Some? ==> OccursAt(s, pat, r.value)
    ensures r.Some? ==> forall i: nat | i < r.value :: !OccursAt(s, pat, i)
    ensures r.None? ==> forall i: nat :: !OccursAt(s, pat, i)
  {
    StrStrFrom(s, pat, 0)
  }

  /** isspace in the C locale. */
  predicate IsSpace(c: char) {
    c == ' ' || c == '\t' || c == '\n' || c == 11 as char || c == 12 as char || c == '\r'
  }

  /** The delimiter set " \t\r\n" that the header parser hands to strspn and strtok. */
  predicate IsDelim(c: char) {
    c == ' ' || c == '\t' || c == '\r' || c == '\n'
  }

  /** A byte that can belong to a strtok token: neither a delimiter nor the terminator. */
  predicate IsTokenChar(c: char) {
    !IsDelim(c) && c != NUL
  }

  /** The byte classes that the scans below pass over. */
  datatype Class = Space | Delim | TokenChar | Digit | XDigit | Besides(c: char)

  predicate In(cls: Class, c: char) {
    match cls
    case Space => IsSpace(c)
    case Delim => IsDelim(c)
    case TokenChar => IsTokenChar(c)
    case Digit => IsDigit(c)
    case XDigit => IsHexDigit(c)
    case Besides(d) => c != d && c != NUL
  }

  /**
   * The scan that strspn, strtok, atoi and sscanf all make: from position
   * `from` of `b`, the first position before `end` whose byte is not of class `cls`, or
   * `end` when there is none.
   */
  function Span(b: seq<char>, from: nat, end: nat, cls: Class): (n: nat)
    requires from <= end <= |b|
    ensures from <= n <= end
    ensures n < end ==> !In(cls, b[n])
    decreases end - from
  {
    if from < end && In(cls, b[from]) then Span(b, from + 1, end, cls) else from
  }

  /** Every byte that Span passes over is of class `cls`. */
  lemma {:induction false} SpanAccepts(b: seq<char>, from: nat, end: nat, cls: Class, i: nat)
    requires from <= end <= |b| && from <= i < Span(b, from, end, cls)
    ensures In(cls, b[i])
    decreases end - from
  {
    if from < i {
      SpanAccepts(b, from + 1, end, cls, i);
    }
  }

  /** Span stops at the first byte not of class `cls`. */
  lemma {:induction false} SpanStops(b: seq<char>, from: nat, end: nat, cls: Class, k: nat)
    requires from <= k <= end <= |b|
    requires forall i | from <= i < k :: In(cls, b[i])
    requires k == end || !In(cls, b[k])
    ensures Span(b, from, end, cls) == k
    decreases k - from
  {
    if from < k {
      SpanStops(b, from + 1, end, cls, k);
    }
  }

  /** Span on a slice is Span on the whole sequence, shifted. */
  lemma {:induction false} SpanSlice(b: seq<char>, lo: nat, from: nat, end: nat, cls: Class)
    requires lo <= from <= end <= |b|
    ensures Span(b[lo..end], from - lo, end - lo, cls) + lo == Span(b, from, end, cls)
    decreases end - from
  {
    if from < end {
      assert b[lo..end][from - lo] == b[from];
      SpanSlice(b, lo, from + 1, end, cls);
    }
  }

  /** ASCII case folding, the only folding strcasecmp does in the C locale. */
  function LowerChar(c: char): (d: char)
    ensures 'A' <= c <= 'Z' ==> d as int == c as int + 32
    ensures !('A' <= c <= 'Z') ==> d == c
  {
    if 'A' <= c <= 'Z' then (c as int + 32) as char else c
  }

  /**
   * strcasecmp(p, lit) == 0, where p points to position `from` of `b` and the
   * string there ends at `to`: equal lengths, and equal bytes once folded to
   * lower case.
   */
  predicate CaseEqAt(b: seq<char>, from: nat, to: nat, lit: seq<char>)
    requires from <= to <= |b|
  {
    to - from == |lit| && forall i | 0 <= i < |lit| :: LowerChar(b[from + i]) == LowerChar(lit[i])
  }

  /** A string folded to lower case, byte by byte. */
  function Lower(s: seq<char>): (t: seq<char>)
    ensures |t| == |s| && forall i | 0 <= i < |s| :: t[i] == LowerChar(s[i])
  {
    if s == [] then [] else [LowerChar(s[0])] + Lower(s[1..])
  }

  /** strcasecmp finds the string at `from` equal to `lit` exactly when both are equal once folded to lower case. */
  lemma CaseEqAtFold(b: seq<char>, from: nat, to: nat, lit: seq<char>)
    requires from <= to <= |b|
    ensures CaseEqAt(b, from, to, lit) <==> Lower(b[from..to]) == Lower(lit)
  {
    var s := b[from..to];
    if CaseEqAt(b, from, to, lit) {
      assert forall i | 0 <= i < |lit| :: Lower(s)[i] == Lower(lit)[i] by {
        forall i | 0 <= i < |lit| ensures Lower(s)[i] == Lower(lit)[i] {
          assert s[i] == b[from + i];
        }
      }
    }
    if Lower(s) == Lower(lit) {
      forall i | 0 <= i < |lit| ensures LowerChar(b[from + i]) == LowerChar(lit[i]) {
        assert s[i] == b[from + i];
        assert Lower(s)[i] == Lower(lit)[i];
      }
    }
  }

  // ---------------------------------------------------------------------------
  // Numbers: atoi, sscanf("%x") and their formatting partners.

  predicate IsDigit(c: char) {
    '0' <= c <= '9'
  }

  predicate IsHexDigit(c: char) {
    '0' <= c <= '9' || 'a' <= c <= 'f' || 'A' <= c <= 'F'
  }

  /** The value of a hexadecimal digit of either case, which for a decimal digit is its decimal value (0 for any other byte, which no caller passes). */
  function DigitValue(c: char): (v: nat)
    ensures v < 16
    ensures IsDigit(c) ==> v < 10
  {
    if '0' <= c <= '9' then c as int - '0' as int
    else if 'a' <= c <= 'f' then c as int - 'a' as int + 10
    else if 'A' <= c <= 'F' then c as int - 'A' as int + 10
    else 0
  }

  /** The value of the digits b[from..upto] in base `radix`, most significant first. */
  function ValueIn(b: seq<char>, from: nat, upto: nat, radix: nat): nat
    requires from <= upto <= |b|
    decreases upto - from
  {
    if upto == from then 0 else ValueIn(b, from, upto - 1, radix) * radix + DigitValue(b[upto - 1])
  }

  /** ValueIn reads only the digits it is given. */
  lemma {:induction false} ValueInSlice(b: seq<char>, c: seq<char>, from: nat, upto: nat, shift: nat, radix: nat)
    requires from <= upto && shift + upto <= |b| && upto <= |c|
    requires forall i | from <= i < upto :: c[i] == b[shift + i]
    ensures ValueIn(c, from, upto, radix) == ValueIn(b, shift + from, shift + upto, radix)
    decreases upto - from
  {
    if from < upto {
      ValueInSlice(b, c, from, upto - 1, shift, radix);
    }
  }

  /**
   * atoi of the string b[from..end], read in place: skip `isspace`, an
   * optional sign, then as many decimal digits as follow.
   */
  function AtoiIn(b: seq<char>, from: nat, end: nat): (r: int)
    requires from <= end <= |b|
    ensures var i := Span(b, from, end, Space);
      r < 0 ==> i < end && b[i] == '-'
    ensures var i := Span(b, from, end, Space);
      var j := if i < end && (b[i] == '-' || b[i] == '+') then i + 1 else i;
      j == end || !IsDigit(b[j]) ==> r == 0
  {
    var i := Span(b, from, end, Space);
    if i < end && (b[i] == '-' || b[i] == '+') then
      var v: int := ValueIn(b, i + 1, Span(b, i + 1, end, Digit), 10);
      if b[i] == '-' then -v else v
    else
      ValueIn(b, i, Span(b, i, end, Digit), 10)
  }

  /** atoi(p), where p points to position `from` of `b`. */
  function AtoiAt(b: seq<char>, from: nat): int
    requires from <= |b|
  {
    AtoiIn(b, from, |b|)
  }

  /** atoi on a string of its own. */
  function Atoi(s: seq<char>): int {
    AtoiIn(s, 0, |s|)
  }

  /**
   * atoi reads back a number written in decimal at position `start` of `b`,
   * after the white space from `from` on and before a byte that is not a digit.
   */
  lemma AtoiAtDecimal(b: seq<char>, from: nat, start: nat, n: nat)
    requires from <= start && start + |Decimal(n)| <= |b|
    requires forall i | from <= i < start :: IsSpace(b[i])
    requires b[start..start + |Decimal(n)|] == Decimal(n)
    requires start + |Decimal(n)| == |b| || !IsDigit(b[start + |Decimal(n)|])
    ensures AtoiAt(b, from) == n
  {
    var d := Decimal(n);
    forall i | 0 <= i < |d| ensures d[i] == b[start + i] {
      assert b[start..start + |d|][i] == b[start + i];
    }
    assert IsDigit(b[start]);
    SpanStops(b, from, |b|, Space, start);
    SpanStops(b, start, |b|, Digit, start + |d|);
    ValueInSlice(b, d, 0, |d|, start, 10);
    ValueOfDecimal(n);
  }

  /** atoi skips a leading `isspace` byte. */
  lemma AtoiSkipsSpace(b: seq<char>, from: nat)
    requires from < |b| && IsSpace(b[from])
    ensures AtoiAt(b, from) == AtoiAt(b, from + 1)
  {
    assert Span(b, from, |b|, Space) == Span(b, from + 1, |b|, Space);
  }

  /**
   * sscanf(p, "%x", &v) on the C string from position `from` of `b` to the
   * terminator at `end`: leading white space is skipped and the hexadecimal
   * digits that follow are converted; None when there is no digit, in which
   * case sscanf assigns nothing.
   */
  function ScanHexAt(b: seq<char>, from: nat, end: nat): (r: Option<nat>)
    requires from <= end <= |b|
    ensures var i := Span(b, from, end, Space);
      r.None? <==> i == end || !IsHexDigit(b[i])
  {
    var i := Span(b, from, end, Space);
    var j := Span(b, i, end, XDigit);
    if j == i then None else Some(ValueIn(b, i, j, 16))
  }

  /** sscanf("%x") on a string of its own. */
  function ScanHex(s: seq<char>): (r: Option<nat>) {
    ScanHexAt(s, 0, |s|)
  }

  /** sscanf reads the same number whether it is handed a pointer into a buffer or a copy of the string. */
  lemma ScanHexAtSlice(b: seq<char>, from: nat, end: nat)
    requires from <= end <= |b|
    ensures ScanHexAt(b, from, end) == ScanHex(b[from..end])
  {
    var s := b[from..end];
    SpanSlice(b, from, from, end, Space);
    var i := Span(b, from, end, Space);
    SpanSlice(b, from, i, end, XDigit);
    var j := Span(b, i, end, XDigit);
    forall n | i - from <= n < j - from ensures s[n] == b[from + n] {
    }
    ValueInSlice(b, s, i - from, j - from, from, 16);
  }

  /** The decimal digits of `n`, without leading zeros. */
  function Decimal(n: nat): (d: seq<char>)
    ensures d != [] && forall i | 0 <= i < |d| :: IsDigit(d[i])
  {
    if n < 10 then ['0' + n as char] else Decimal(n / 10) + ['0' + (n % 10) as char]
  }

  function HexDigit(v: nat): (c: char)
    requires v < 16
    ensures IsHexDigit(c) && DigitValue(c) == v
  {
    if v < 10 then '0' + v as char else 'a' + (v - 10) as char
  }

  /** The lower-case hexadecimal digits of `n`, without leading zeros, as a server writes a chunk size. */
  function Hex(n: nat): (d: seq<char>)
    ensures d != [] && forall i | 0 <= i < |d| :: IsHexDigit(d[i])
  {
    if n < 16 then [HexDigit(n)] else Hex(n / 16) + [HexDigit(n % 16)]
  }

  /** Reading digits back: the value of the first |d| bytes of d + rest. */
  lemma ValueInPrefix(d: seq<char>, rest: seq<char>, base: nat)
    ensures ValueIn(d + rest, 0, |d|, base) == ValueIn(d, 0, |d|, base)
  {
    forall i | 0 <= i < |d| ensures d[i] == (d + rest)[0 + i] {
    }
    ValueInSlice(d + rest, d, 0, |d|, 0, base);
  }

  lemma {:induction false} ValueOfDecimal(n: nat)
    ensures ValueIn(Decimal(n), 0, |Decimal(n)|, 10) == n
  {
    if n >= 10 {
      var d := Decimal(n);
      ValueInPrefix(Decimal(n / 10), ['0' + (n % 10) as char], 10);
      ValueOfDecimal(n / 10);
    }
  }

  lemma {:induction false} ValueOfHex(n: nat)
    ensures ValueIn(Hex(n), 0, |Hex(n)|, 16) == n
  {
    if n >= 16 {
      ValueInPrefix(Hex(n / 16), [HexDigit(n % 16)], 16);
      ValueOfHex(n / 16);
    }
  }

  /** atoi reads back what Decimal writes, whatever non-digit text follows. */
  lemma AtoiDecimal(n: nat, rest: seq<char>)
    requires rest == [] || !IsDigit(rest[0])
    ensures Atoi(Decimal(n) + rest) == n
  {
    var d := Decimal(n);
    var s := d + rest;
    assert !IsSpace(s[0]) && s[0] != '-' && s[0] != '+';
    SpanStops(s, 0, |s|, Space, 0);
    SpanStops(s, 0, |s|, Digit, |d|);
    ValueInPrefix(d, rest, 10);
    ValueOfDecimal(n);
  }

  /** sscanf("%x") reads back what Hex writes, whatever non-digit text follows. */
  lemma ScanHexHex(n: nat, rest: seq<char>)
    requires rest == [] || !IsHexDigit(rest[0])
    ensures ScanHex(Hex(n) + rest) == Some(n)
  {
    var d := Hex(n);
    var s := d + rest;
    assert !IsSpace(s[0]);
    SpanStops(s, 0, |s|, Space, 0);
    SpanStops(s, 0, |s|, XDigit, |d|);
    ValueInPrefix(d, rest, 16);
    ValueOfHex(n);
  }
}
