/**
 * Reading text that sits in a NUL-terminated buffer: strstr, and the parser of
 * the Content-Length header in kii_cl_parser.c.
 */
module HttpText {
  import opened Memory

  /** The first place at or after `i` where `pat` stands before any NUL, or -1. */
  function StrStrFrom(s: string, i: nat, pat: string): (r: int)
    requires pat != "" && '\0' !in pat
    ensures r == -1 || (i <= r && StandsAt(s, r, pat))
    decreases |s| - i
  {
    if StandsAt(s, i, pat) then i
    else if At(s, i) == '\0' then -1
    else StrStrFrom(s, i + 1, pat)
  }

  function StrStr(s: string, pat: string): (r: int)
    requires pat != "" && '\0' !in pat
    ensures r == -1 || (0 <= r && StandsAt(s, r, pat))
  {
    StrStrFrom(s, 0, pat)
  }

  const CRLF := "\r\n"
  const END_OF_HEADER := "\r\n\r\n"

  // ------------------------------------------------- what the parser computes

  const LOWER := "content-length"
  const UPPER := "CONTENT-LENGTH"
  const CL_LENGTH := 14

  function DigitOf(c: char): nat
    requires IsDigit(c)
  {
    c as int - '0' as int
  }

  /** Does the line at `at` start with the header's name, in any mixture of cases? */
  predicate IsContentLength(s: string, at: nat) {
    forall i :: 0 <= i < CL_LENGTH ==> At(s, at + i) == LOWER[i] || At(s, at + i) == UPPER[i]
  }

  /** The start of the line after the one `i` is in, or -1 if the head or the text ends first. */
  function NextLine(s: string, i: nat): (r: int)
    ensures r == -1 || i + 2 <= r <= |s|
    decreases |s| - i
  {
    if At(s, i) == '\0' then -1
    else if s[i] == '\r' && At(s, i + 1) == '\n' then
      if At(s, i + 2) == '\r' && At(s, i + 3) == '\n' then -1 else i + 2
    else NextLine(s, i + 1)
  }

  /** The digits from `p` on, before `stop`, after the value `acc`. */
  function Digits(s: string, p: nat, stop: nat, acc: nat): nat
    decreases stop - p
  {
    if p < stop && IsDigit(At(s, p)) then Digits(s, p + 1, stop, acc * 10 + DigitOf(At(s, p))) else acc
  }

  /** The first digit other than zero from `p` up to `last`, or -1. */
  function FirstDigit(s: string, p: nat, last: nat): (r: int)
    ensures r == -1 || p <= r <= last
    ensures r != -1 ==> '1' <= At(s, r) <= '9'
    decreases last + 1 - p
  {
    if p > last then -1
    else if '1' <= At(s, p) <= '9' then p
    else FirstDigit(s, p + 1, last)
  }

  /** The number in the header at `at`: at most ten digits from the first one that is not zero. */
  function HeaderValue(s: string, at: nat): nat {
    var start := at + CL_LENGTH;
    var first := FirstDigit(s, start, start + 10);
    if first == -1 then 0 else Digits(s, first + 1, first + 10, DigitOf(At(s, first)))
  }

  /** The value of the first Content-Length line after the line `i` is in; 0 without one. */
  function ContentLengthFrom(s: string, i: nat): nat
    decreases |s| - i
  {
    var next := NextLine(s, i);
    if next == -1 then 0
    else if IsContentLength(s, next) then HeaderValue(s, next)
    else ContentLengthFrom(s, next)
  }

  function ContentLength(s: string): nat { ContentLengthFrom(s, 0) }

  // -------------------------------------------------------- and how it does

  method Check(s: string, header: nat) returns (ret: int)
    ensures ret == if IsContentLength(s, header) then 1 else 0
  {
    var i := 0;
    while i < CL_LENGTH
      invariant 0 <= i <= CL_LENGTH
      invariant forall k :: 0 <= k < i ==> At(s, header + k) == LOWER[k] || At(s, header + k) == UPPER[k]
    {
      if At(s, header + i) == LOWER[i] || At(s, header + i) == UPPER[i] {
        i := i + 1;
        continue;
      }
      break;
    }
    ret := if i == CL_LENGTH then 1 else 0;
  }

  /** `widest` is the largest number the sum takes on the way. */
  method Value(s: string, header: nat) returns (ret: nat, ghost widest: nat)
    ensures ret == HeaderValue(s, header) && widest == ret
  {
    var start := header + CL_LENGTH;
    var next := start;
    while At(s, next) < '1' || '9' < At(s, next)
      invariant start <= next <= start + 10
      invariant FirstDigit(s, next, start + 10) == FirstDigit(s, start, start + 10)
      decreases start + 10 - next
    {
      next := next + 1;
      if next - start > 10 {
        return 0, 0;
      }
    }
    ret := DigitOf(At(s, next));
    widest := ret;
    ghost var first := next;
    var i := 1;
    while i < 10
      invariant 1 <= i <= 10 && next == first + i - 1 && widest == ret
      invariant Digits(s, next + 1, first + 10, ret) == Digits(s, first + 1, first + 10, DigitOf(At(s, first)))
    {
      var nn := next + 1;
      if IsDigit(At(s, nn)) {
        ret := ret * 10 + DigitOf(At(s, nn));
        widest := Max(widest, ret);
      } else {
        break;
      }
      i := i + 1;
      next := next + 1;
    }
  }

  /** -1 stands for the null pointer. */
  method Skip(s: string, start: nat) returns (next: int)
    ensures next == NextLine(s, start)
  {
    var header := start;
    while At(s, header) != '\0'
      invariant start <= header
      invariant NextLine(s, header) == NextLine(s, start)
      decreases |s| - header
    {
      if At(s, header) == '\r' {
        if At(s, header + 1) == '\n' {
          if At(s, header + 2) == '\r' && At(s, header + 3) == '\n' {
            return -1;
          } else {
            return header + 2;
          }
        }
      }
      header := header + 1;
    }
    return -1;
  }

  method ParseContentLength(s: string) returns (r: nat)
    ensures r == ContentLength(s)
  {
    var next := 0;
    while true
      invariant 0 <= next
      invariant ContentLengthFrom(s, next) == ContentLength(s)
      decreases |s| - next
    {
      var line := Skip(s, next);
      if line == -1 {
        break;
      }
      var ret := Check(s, line);
      if ret == 1 {
        ghost var widest;
        r, widest := Value(s, line);
        return;
      }
      next := line;
    }
    return 0;
  }
}
