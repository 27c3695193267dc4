/**
 * Message heads as lines, and what the Content-Length parser reads in them.
 */
module HttpHeaders {
  import opened Memory
  import opened HttpText

  /** A line has no line break and no NUL in it. */
  predicate IsClean(l: string) {
    forall i :: 0 <= i < |l| ==> l[i] != '\r' && l[i] != '\n' && l[i] != '\0'
  }

  ghost predicate AreLines(ls: seq<string>) {
    forall i :: 0 <= i < |ls| ==> ls[i] != "" && IsClean(ls[i])
  }

  ghost function Lines(ls: seq<string>): string {
    if ls == [] then "" else ls[0] + (CRLF + Lines(ls[1..]))
  }

  /** A start line, header lines and the empty line. */
  ghost function Head(first: string, ls: seq<string>): string {
    first + (CRLF + (Lines(ls) + CRLF))
  }

  // ---------------------------------------------------------- walking lines

  /** What is left of `s` at `i`. */
  ghost predicate Left(s: string, i: nat, rest: string) {
    i <= |s| && s[i..] == rest
  }

  lemma LeftDrop(s: string, i: nat, a: string, b: string)
    requires Left(s, i, a + b)
    ensures Left(s, i + |a|, b)
    ensures forall k :: 0 <= k < |a| ==> At(s, i + k) == a[k]
    ensures forall k :: 0 <= k < |b| ==> At(s, i + |a| + k) == b[k]
    ensures b == "" ==> At(s, i + |a|) == '\0'
  {
    var r := s[i..];
    assert s[i + |a|..] == r[|a|..] == b;
    forall k | 0 <= k < |a| ensures At(s, i + k) == a[k] { assert r[k] == s[i + k]; }
    forall k | 0 <= k < |b| ensures At(s, i + |a| + k) == b[k] { assert r[|a| + k] == s[i + |a| + k]; }
  }

  lemma LeftRest(s: string, i: nat, a: string, b: string)
    requires Left(s, i, a + b)
    ensures Left(s, i + |a|, b)
  {
    LeftDrop(s, i, a, b);
  }

  lemma LeftFirst(s: string, i: nat, rest: string)
    requires Left(s, i, rest) && rest != ""
    ensures At(s, i) == rest[0]
  {
    assert s[i] == s[i..][0];
  }

  /** From the first character of a line to that of the next. */
  lemma LeftNextLine(s: string, i: nat, l: string, rest: string)
    requires Left(s, i, l + (CRLF + rest))
    ensures Left(s, i + |l| + 2, rest)
  {
    LeftRest(s, i, l, CRLF + rest);
    LeftRest(s, i + |l|, CRLF, rest);
  }

  lemma {:induction false} NextLineAfter(s: string, i: nat, l: string, rest: string)
    requires IsClean(l) && Left(s, i, l + (CRLF + rest))
    ensures NextLine(s, i) == if At(s, i + |l| + 2) == '\r' && At(s, i + |l| + 3) == '\n' then -1 else i + |l| + 2
    decreases |l|
  {
    if l == "" {
      assert l + (CRLF + rest) == CRLF + rest;
      LeftDrop(s, i, CRLF, rest);
      assert At(s, i + 0) == CRLF[0] && At(s, i + 1) == CRLF[1];
    } else {
      var l' := l[1..];
      assert l + (CRLF + rest) == [l[0]] + (l' + (CRLF + rest));
      LeftDrop(s, i, [l[0]], l' + (CRLF + rest));
      assert At(s, i + 0) == l[0];
      NextLineAfter(s, i + 1, l', rest);
    }
  }

  /** In any text, a line goes up to the next CRLF, and no line comes after a CRLF that another one follows. */
  lemma {:induction false} NextLineExactly(s: string, i: nat)
    ensures var k := StrStrFrom(s, i, "\r\n");
      NextLine(s, i) == if k == -1 || StandsAt(s, k + 2, "\r\n") then -1 else k + 2
    decreases |s| - i
  {
    assert i < |s| ==> (StandsAt(s, i, "\r\n") <==> s[i] == '\r' && At(s, i + 1) == '\n') by { TwoStand(s, i); }
    TwoStand(s, i + 2);
    if At(s, i) != '\0' && !StandsAt(s, i, "\r\n") { NextLineExactly(s, i + 1); }
  }

  lemma TwoStand(s: string, i: nat)
    ensures StandsAt(s, i, "\r\n") <==> At(s, i) == '\r' && At(s, i + 1) == '\n'
  {
    assert "\r\n"[0] == '\r' && "\r\n"[1] == '\n';
    if StandsAt(s, i, "\r\n") { assert s[i + 0] == "\r\n"[0] && s[i + 1] == "\r\n"[1]; }
  }

  /** The line names the header. */
  predicate NamesLength(l: string) {
    |l| >= CL_LENGTH && forall i :: 0 <= i < CL_LENGTH ==> l[i] == LOWER[i] || l[i] == UPPER[i]
  }

  /** A letter in lower case; other characters stay. */
  function InLowerCase(c: char): char { if 'A' <= c <= 'Z' then c - 'A' + 'a' else c }

  function LowerCase(s: string): string { seq(|s|, i requires 0 <= i < |s| => InLowerCase(s[i])) }

  /** The name is told whatever the case of its letters. */
  lemma NameIgnoresCase(l: string)
    ensures NamesLength(l) <==> |l| >= 14 && LowerCase(l[..14]) == "content-length"
  {
    if |l| >= 14 {
      forall i | 0 <= i < 14
        ensures l[i] == LOWER[i] || l[i] == UPPER[i] <==> InLowerCase(l[i]) == "content-length"[i]
      {
      }
      assert NamesLength(l) <==> forall i :: 0 <= i < 14 ==> LowerCase(l[..14])[i] == "content-length"[i];
    }
  }

  lemma NameIsRead(s: string, at: nat, l: string, rest: string)
    requires IsClean(l) && Left(s, at, l + (CRLF + rest))
    ensures IsContentLength(s, at) <==> NamesLength(l)
  {
    LeftDrop(s, at, l, CRLF + rest);
    if |l| < CL_LENGTH {
      assert At(s, at + |l| + 0) == (CRLF + rest)[0];
      assert !(At(s, at + |l|) == LOWER[|l|] || At(s, at + |l|) == UPPER[|l|]);
    } else {
      assert forall i :: 0 <= i < CL_LENGTH ==> At(s, at + i) == l[i];
    }
  }

  /** The value the parser finds in lines, given where they start: that of the first line that names it. */
  ghost function LengthInLines(s: string, at: nat, ls: seq<string>): nat
    decreases |ls|
  {
    if ls == [] then 0
    else if NamesLength(ls[0]) then HeaderValue(s, at)
    else LengthInLines(s, at + |ls[0]| + 2, ls[1..])
  }

  lemma {:induction false} LengthIsInLines(s: string, i: nat, l: string, ls: seq<string>, tail: string)
    requires IsClean(l) && AreLines(ls) && Left(s, i, l + (CRLF + (Lines(ls) + (CRLF + tail))))
    ensures ContentLengthFrom(s, i) == LengthInLines(s, i + |l| + 2, ls)
    decreases |ls|
  {
    var next := i + |l| + 2;
    NextLineAfter(s, i, l, Lines(ls) + (CRLF + tail));
    LeftNextLine(s, i, l, Lines(ls) + (CRLF + tail));
    if ls == [] {
      LastLine(s, next, tail);
      assert NextLine(s, i) == -1;
    } else {
      NextHeader(s, next, ls, tail);
      assert NextLine(s, i) == next;
      if NamesLength(ls[0]) {
        assert ContentLengthFrom(s, i) == HeaderValue(s, next);
      } else {
        assert ContentLengthFrom(s, i) == ContentLengthFrom(s, next);
        LengthIsInLines(s, next, ls[0], ls[1..], tail);
      }
    }
  }

  lemma LastLine(s: string, next: nat, tail: string)
    requires Left(s, next, Lines([]) + (CRLF + tail))
    ensures At(s, next) == '\r' && At(s, next + 1) == '\n'
  {
    assert Lines([]) + (CRLF + tail) == CRLF + tail;
    LeftDrop(s, next, CRLF, tail);
    assert At(s, next + 0) == CRLF[0] && At(s, next + 1) == CRLF[1];
  }

  lemma NextHeader(s: string, next: nat, ls: seq<string>, tail: string)
    requires AreLines(ls) && ls != [] && Left(s, next, Lines(ls) + (CRLF + tail))
    ensures At(s, next) != '\r' && (IsContentLength(s, next) <==> NamesLength(ls[0]))
    ensures AreLines(ls[1..]) && Left(s, next, ls[0] + (CRLF + (Lines(ls[1..]) + (CRLF + tail))))
  {
    var h, rest := ls[0], Lines(ls[1..]) + (CRLF + tail);
    assert h != "" && IsClean(h);
    assert Lines(ls) + (CRLF + tail) == h + (CRLF + rest);
    LeftFirst(s, next, h + (CRLF + rest));
    NameIsRead(s, next, h, rest);
  }

  // ------------------------------------------------------------ decimal numbers

  ghost predicate AreDigits(ds: string) { forall i :: 0 <= i < |ds| ==> IsDigit(ds[i]) }

  /** The number `ds` adds to after `acc`. */
  ghost function NumberOf(ds: string, acc: nat): nat
    requires AreDigits(ds)
  {
    if ds == "" then acc else NumberOf(ds[1..], acc * 10 + DigitOf(ds[0]))
  }

  lemma {:induction false} DigitsAreRead(s: string, p: nat, stop: nat, ds: string, acc: nat)
    requires AreDigits(ds) && p + |ds| <= stop
    requires forall k :: 0 <= k < |ds| ==> At(s, p + k) == ds[k]
    requires !IsDigit(At(s, p + |ds|))
    ensures Digits(s, p, stop, acc) == NumberOf(ds, acc)
    decreases |ds|
  {
    if ds != "" {
      assert At(s, p + 0) == ds[0];
      forall k | 0 <= k < |ds[1..]| ensures At(s, p + 1 + k) == ds[1..][k] { assert At(s, p + (1 + k)) == ds[1 + k]; }
      DigitsAreRead(s, p + 1, stop, ds[1..], acc * 10 + DigitOf(ds[0]));
    }
  }

  lemma {:induction false} FirstDigitAfter(s: string, p: nat, gap: string, last: nat)
    requires p + |gap| <= last && forall k :: 0 <= k < |gap| ==> !('1' <= gap[k] <= '9')
    requires forall k :: 0 <= k < |gap| ==> At(s, p + k) == gap[k]
    requires '1' <= At(s, p + |gap|) <= '9'
    ensures FirstDigit(s, p, last) == p + |gap|
    decreases |gap|
  {
    if gap != "" {
      assert At(s, p + 0) == gap[0];
      forall k | 0 <= k < |gap[1..]| ensures At(s, p + 1 + k) == gap[1..][k] {
        assert At(s, p + (1 + k)) == gap[1 + k];
      }
      FirstDigitAfter(s, p + 1, gap[1..], last);
    }
  }

  /** A Content-Length line: the name, up to ten characters that are no digit from 1 to 9, a number, and anything. */
  ghost predicate IsLengthLine(l: string, gap: string, ds: string) {
    && NamesLength(l) && gap + ds <= l[CL_LENGTH..] && !IsDigit(At(l, CL_LENGTH + |gap| + |ds|))
    && |gap| <= 10 && (forall k :: 0 <= k < |gap| ==> !('1' <= gap[k] <= '9'))
    && 1 <= |ds| <= 10 && AreDigits(ds) && ds[0] != '0'
  }

  lemma ValueIsRead(s: string, at: nat, l: string, gap: string, ds: string, rest: string)
    requires IsLengthLine(l, gap, ds) && Left(s, at, l + (CRLF + rest))
    ensures HeaderValue(s, at) == NumberOf(ds, 0)
  {
    var start := at + CL_LENGTH;
    var first := start + |gap|;
    LengthLineParts(s, at, l, gap, ds, rest);
    FirstDigitAfter(s, start, gap, start + 10);
    forall k | 0 <= k < |ds[1..]| ensures At(s, first + 1 + k) == ds[1..][k] {
      assert At(s, first + (1 + k)) == ds[1 + k];
    }
    DigitsAreRead(s, first + 1, first + 10, ds[1..], DigitOf(ds[0]));
    assert NumberOf(ds, 0) == NumberOf(ds[1..], DigitOf(ds[0]));
  }

  lemma LengthLineParts(s: string, at: nat, l: string, gap: string, ds: string, rest: string)
    requires IsLengthLine(l, gap, ds) && Left(s, at, l + (CRLF + rest))
    ensures var start := at + CL_LENGTH; var first := start + |gap|;
      && (forall k :: 0 <= k < |gap| ==> At(s, start + k) == gap[k])
      && (forall k :: 0 <= k < |ds| ==> At(s, first + k) == ds[k]) && At(s, first) == ds[0]
      && !IsDigit(At(s, first + |ds|))
  {
    var start := at + CL_LENGTH;
    var after := l[CL_LENGTH + |gap| + |ds|..];
    SplitLine(l, gap, ds);
    assert l + (CRLF + rest) == l[..CL_LENGTH] + (gap + (ds + (after + (CRLF + rest))));
    LeftRest(s, at, l[..CL_LENGTH], gap + (ds + (after + (CRLF + rest))));
    LeftDrop(s, start, gap, ds + (after + (CRLF + rest)));
    LeftDrop(s, start + |gap|, ds, after + (CRLF + rest));
    LeftFirst(s, start + |gap|, ds + (after + (CRLF + rest)));
    LeftFirst(s, start + |gap| + |ds|, after + (CRLF + rest));
  }

  lemma SplitLine(l: string, gap: string, ds: string)
    requires |l| >= CL_LENGTH && gap + ds <= l[CL_LENGTH..]
    ensures l == l[..CL_LENGTH] + (gap + (ds + l[CL_LENGTH + |gap| + |ds|..]))
  {
    var n := |gap + ds|;
    assert l[CL_LENGTH..][..n] == gap + ds && l[CL_LENGTH..][n..] == l[CL_LENGTH + n..];
    assert l == l[..CL_LENGTH] + (l[CL_LENGTH..][..n] + l[CL_LENGTH..][n..]);
  }

  // --------------------------------------------------- a declared length of zero

  ghost predicate NoDigitIn(s: string, p: nat, last: nat) {
    forall k :: p <= k <= last ==> !('1' <= At(s, k) <= '9')
  }

  lemma {:induction false} NoFirstDigit(s: string, p: nat, last: nat)
    ensures FirstDigit(s, p, last) == -1 <==> NoDigitIn(s, p, last)
    decreases last + 1 - p
  {
    if p <= last && !('1' <= At(s, p) <= '9') { NoFirstDigit(s, p + 1, last); }
  }

  lemma {:induction false} DigitsAdd(s: string, p: nat, stop: nat, acc: nat)
    ensures Digits(s, p, stop, acc) >= acc
    decreases stop - p
  {
    if p < stop && IsDigit(At(s, p)) { DigitsAdd(s, p + 1, stop, acc * 10 + DigitOf(At(s, p))); }
  }

  /** Zero is read exactly when no digit from 1 to 9 is near, be it on this line or on a later one. */
  lemma ZeroIsReadExactly(s: string, at: nat)
    ensures HeaderValue(s, at) == 0 <==> NoDigitIn(s, at + CL_LENGTH, at + CL_LENGTH + 10)
  {
    var start := at + CL_LENGTH;
    NoFirstDigit(s, start, start + 10);
    var first := FirstDigit(s, start, start + 10);
    if first != -1 { DigitsAdd(s, first + 1, first + 10, DigitOf(At(s, first))); }
  }

  /** So a length of zero can be read as a digit of the line after it. */
  lemma ZeroIsMisread(at: nat, s: string)
    requires Left(s, at, "content-length: 0\r\nx: 5\r\n\r\n")
    ensures HeaderValue(s, at) == 5
  {
    var l, gap, rest := "content-length", ": 0\r\nx: ", "5\r\n\r\n";
    assert "content-length: 0\r\nx: 5\r\n\r\n" == l + (gap + rest);
    LeftRest(s, at, l, gap + rest);
    LeftDrop(s, at + CL_LENGTH, gap, rest);
    var first := at + CL_LENGTH + |gap|;
    assert At(s, first + 0) == '5' && At(s, first + 1) == '\r';
    FirstDigitAfter(s, at + CL_LENGTH, gap, at + CL_LENGTH + 10);
  }

  // ------------------------------------------------------------- whole heads

  lemma {:induction false} FirstLengthLine(s: string, at: nat, before: seq<string>, l: string, after: seq<string>,
                                           gap: string, ds: string, tail: string)
    requires AreLines(before + [l] + after) && (forall i :: 0 <= i < |before| ==> !NamesLength(before[i]))
    requires IsLengthLine(l, gap, ds) && Left(s, at, Lines(before + [l] + after) + (CRLF + tail))
    ensures LengthInLines(s, at, before + [l] + after) == NumberOf(ds, 0)
    decreases |before|
  {
    var ls := before + [l] + after;
    NextHeader(s, at, ls, tail);
    if before == [] {
      assert ls[0] == l;
      ValueIsRead(s, at, l, gap, ds, Lines(ls[1..]) + (CRLF + tail));
    } else {
      assert ls[0] == before[0] && ls[1..] == before[1..] + [l] + after;
      LeftNextLine(s, at, ls[0], Lines(ls[1..]) + (CRLF + tail));
      FirstLengthLine(s, at + |ls[0]| + 2, before[1..], l, after, gap, ds, tail);
    }
  }

  lemma {:induction false} NoLengthLine(s: string, at: nat, ls: seq<string>)
    requires forall i :: 0 <= i < |ls| ==> !NamesLength(ls[i])
    ensures LengthInLines(s, at, ls) == 0
    decreases |ls|
  {
    if ls != [] { NoLengthLine(s, at + |ls[0]| + 2, ls[1..]); }
  }

  lemma HeadIsLeft(first: string, ls: seq<string>, tail: string)
    ensures Left(Head(first, ls) + tail, 0, first + (CRLF + (Lines(ls) + (CRLF + tail))))
  {
    assert Head(first, ls) + tail == first + (CRLF + (Lines(ls) + (CRLF + tail)));
  }

  /** Whatever follows the head, the parser reads the number of its first Content-Length line. */
  lemma HeadDeclares(first: string, before: seq<string>, l: string, after: seq<string>, gap: string, ds: string,
        tail: string)
    requires IsClean(first) && AreLines(before + [l] + after) && IsLengthLine(l, gap, ds)
    requires forall i :: 0 <= i < |before| ==> !NamesLength(before[i])
    ensures ContentLength(Head(first, before + [l] + after) + tail) == NumberOf(ds, 0)
  {
    var ls := before + [l] + after;
    var s := Head(first, ls) + tail;
    HeadIsLeft(first, ls, tail);
    LengthIsInLines(s, 0, first, ls, tail);
    LeftNextLine(s, 0, first, Lines(ls) + (CRLF + tail));
    FirstLengthLine(s, 0 + |first| + 2, before, l, after, gap, ds, tail);
  }

  /** Without a Content-Length line it reads 0. */
  lemma HeadDeclaresNothing(first: string, ls: seq<string>, tail: string)
    requires IsClean(first) && AreLines(ls) && forall i :: 0 <= i < |ls| ==> !NamesLength(ls[i])
    ensures ContentLength(Head(first, ls) + tail) == 0
  {
    HeadIsLeft(first, ls, tail);
    LengthIsInLines(Head(first, ls) + tail, 0, first, ls, tail);
    NoLengthLine(Head(first, ls) + tail, 0 + |first| + 2, ls);
  }

  // ------------------------------------------------------ texts that read the same

  /** They differ in NULs at their ends at most. */
  ghost predicate SameText(s: string, t: string) { forall i: nat :: At(s, i) == At(t, i) }

  lemma {:induction false} SameNextLine(s: string, t: string, i: nat)
    requires SameText(s, t)
    ensures NextLine(s, i) == NextLine(t, i)
    decreases |s| - i
  {
    if At(s, i) != '\0' {
      assert At(s, i) == At(t, i) && At(s, i + 1) == At(t, i + 1);
      assert At(s, i + 2) == At(t, i + 2) && At(s, i + 3) == At(t, i + 3);
      SameNextLine(s, t, i + 1);
    }
  }

  lemma {:induction false} SameFirstDigit(s: string, t: string, p: nat, last: nat)
    requires SameText(s, t)
    ensures FirstDigit(s, p, last) == FirstDigit(t, p, last)
    decreases last + 1 - p
  {
    if p <= last { SameFirstDigit(s, t, p + 1, last); }
  }

  lemma {:induction false} SameDigits(s: string, t: string, p: nat, stop: nat, acc: nat)
    requires SameText(s, t)
    ensures Digits(s, p, stop, acc) == Digits(t, p, stop, acc)
    decreases stop - p
  {
    if p < stop && IsDigit(At(s, p)) { SameDigits(s, t, p + 1, stop, acc * 10 + DigitOf(At(s, p))); }
  }

  lemma SameValue(s: string, t: string, at: nat)
    requires SameText(s, t)
    ensures HeaderValue(s, at) == HeaderValue(t, at)
  {
    var start := at + CL_LENGTH;
    SameFirstDigit(s, t, start, start + 10);
    var first := FirstDigit(s, start, start + 10);
    if first != -1 { SameDigits(s, t, first + 1, first + 10, DigitOf(At(s, first))); }
  }

  lemma {:induction false} SameLength(s: string, t: string, i: nat)
    requires SameText(s, t)
    ensures ContentLengthFrom(s, i) == ContentLengthFrom(t, i)
    decreases |s| - i
  {
    SameNextLine(s, t, i);
    var next := NextLine(s, i);
    if next != -1 {
      SameValue(s, t, next);
      SameLength(s, t, next);
    }
  }

  // ------------------------------------------------- where the head ends

  /** Where the head ends, looking from `i` on. */
  function EndFrom(s: string, i: nat): int { StrStrFrom(s, i, END_OF_HEADER) }

  lemma Mismatch(s: string, i: nat, pat: string, k: nat)
    requires '\0' !in pat && k < |pat| && At(s, i + k) != pat[k] && At(s, i) != '\0'
    ensures StrStrFrom(s, i, pat) == StrStrFrom(s, i + 1, pat)
  {
  }

  lemma BreakIsLeft(s: string, i: nat, l: string, rest: string)
    requires l == "" && Left(s, i, l + (CRLF + rest))
    ensures At(s, i) == '\r' && At(s, i + 1) == '\n'
  {
    assert l + (CRLF + rest) == CRLF + rest;
    LeftDrop(s, i, CRLF, rest);
    assert At(s, i + 0) == CRLF[0] && At(s, i + 1) == CRLF[1];
  }

  lemma CharIsLeft(s: string, i: nat, l: string, rest: string)
    requires l != "" && IsClean(l) && Left(s, i, l + rest)
    ensures At(s, i) == l[0] && l[0] != '\r' && l[0] != '\n' && l[0] != '\0'
    ensures IsClean(l[1..]) && Left(s, i + 1, l[1..] + rest)
  {
    assert l + rest == [l[0]] + (l[1..] + rest);
    LeftRest(s, i, [l[0]], l[1..] + rest);
    LeftFirst(s, i, l + rest);
  }

  lemma {:induction false} EndAfterLine(s: string, i: nat, l: string, rest: string, next: nat)
    requires IsClean(l) && Left(s, i, l + (CRLF + rest)) && next == i + |l| + 2 && At(s, next) != '\r'
    ensures EndFrom(s, i) == EndFrom(s, next)
    decreases |l|
  {
    if l == "" {
      BreakIsLeft(s, i, l, rest);
      Mismatch(s, i, END_OF_HEADER, 2);
      Mismatch(s, i + 1, END_OF_HEADER, 0);
    } else {
      CharIsLeft(s, i, l, CRLF + rest);
      Mismatch(s, i, END_OF_HEADER, 0);
      EndAfterLine(s, i + 1, l[1..], rest, next);
    }
  }

  lemma {:induction false} EndAfterLastLine(s: string, i: nat, l: string, tail: string)
    requires IsClean(l) && Left(s, i, l + (END_OF_HEADER + tail))
    ensures EndFrom(s, i) == i + |l|
    decreases |l|
  {
    if l == "" {
      assert l + (END_OF_HEADER + tail) == END_OF_HEADER + tail;
      LeftDrop(s, i, END_OF_HEADER, tail);
    } else {
      CharIsLeft(s, i, l, END_OF_HEADER + tail);
      Mismatch(s, i, END_OF_HEADER, 0);
      EndAfterLastLine(s, i + 1, l[1..], tail);
    }
  }

  lemma NoLines(tail: string)
    ensures CRLF + (Lines([]) + (CRLF + tail)) == END_OF_HEADER + tail
  {
  }

  lemma EndIsNextLine(s: string, i: nat, l: string, ls: seq<string>, tail: string) returns (next: nat)
    requires IsClean(l) && AreLines(ls) && ls != [] && Left(s, i, l + (CRLF + (Lines(ls) + (CRLF + tail))))
    ensures next == i + |l| + 2
    ensures EndFrom(s, i) == EndFrom(s, next)
    ensures AreLines(ls[1..]) && IsClean(ls[0]) && Left(s, next, ls[0] + (CRLF + (Lines(ls[1..]) + (CRLF + tail))))
  {
    var rest := Lines(ls) + (CRLF + tail);
    next := i + |l| + 2;
    LeftNextLine(s, i, l, rest);
    NextHeader(s, next, ls, tail);
    EndAfterLine(s, i, l, rest, next);
  }

  lemma LinesLength(ls: seq<string>)
    requires ls != []
    ensures |Lines(ls)| == |ls[0]| + 2 + |Lines(ls[1..])|
  {
  }

  lemma {:induction false} EndAfterLines(s: string, i: nat, l: string, ls: seq<string>, tail: string, end: nat)
    requires IsClean(l) && AreLines(ls) && Left(s, i, l + (CRLF + (Lines(ls) + (CRLF + tail))))
    requires end == i + |l| + |Lines(ls)|
    ensures EndFrom(s, i) == end
    decreases |ls|
  {
    if ls == [] {
      NoLines(tail);
      EndAfterLastLine(s, i, l, tail);
    } else {
      LinesLength(ls);
      var next := EndIsNextLine(s, i, l, ls, tail);
      EndAfterLines(s, next, ls[0], ls[1..], tail, end);
    }
  }

  /** The first empty line is the one that ends the head. */
  lemma HeadEnds(first: string, ls: seq<string>, tail: string)
    requires IsClean(first) && AreLines(ls)
    ensures StrStr(Head(first, ls) + tail, END_OF_HEADER) == |Head(first, ls)| - 4
  {
    HeadIsLeft(first, ls, tail);
    var s := Head(first, ls) + tail;
    EndAfterLines(s, 0, first, ls, tail, |Head(first, ls)| - 4);
  }

  // ------------------------------------------------------- printing a number

  function DigitChar(d: nat): (c: char)
    requires d < 10
    ensures IsDigit(c) && DigitOf(c) == d
  {
    (d + '0' as int) as char
  }

  /** What sprintf prints for "%lu". */
  function Decimal(n: nat): string {
    if n < 10 then [DigitChar(n)] else Decimal(n / 10) + [DigitChar(n % 10)]
  }

  lemma {:induction false} NumberOfAppend(a: string, d: char, acc: nat)
    requires AreDigits(a) && IsDigit(d)
    ensures AreDigits(a + [d]) && NumberOf(a + [d], acc) == NumberOf(a, acc) * 10 + DigitOf(d)
    decreases |a|
  {
    if a != "" {
      assert (a + [d])[1..] == a[1..] + [d];
      NumberOfAppend(a[1..], d, acc * 10 + DigitOf(a[0]));
    } else {
      assert ("" + [d])[1..] == "";
    }
  }

  /** Printing a number and reading it back. */
  lemma {:induction false} DecimalRoundTrip(n: nat)
    ensures AreDigits(Decimal(n)) && NumberOf(Decimal(n), 0) == n
    ensures Decimal(n) != "" && (n > 0 ==> Decimal(n)[0] != '0')
  {
    if n < 10 {
      assert Decimal(n)[1..] == "";
    } else {
      DecimalRoundTrip(n / 10);
      NumberOfAppend(Decimal(n / 10), DigitChar(n % 10), 0);
      assert Decimal(n)[0] == Decimal(n / 10)[0];
    }
  }

  ghost function Pow10(k: nat): nat { if k == 0 then 1 else 10 * Pow10(k - 1) }

  lemma {:induction false} TenAtLeast(k: nat)
    requires k > 0
    ensures Pow10(k) >= 10
  {
    if k > 1 { TenAtLeast(k - 1); } else { assert Pow10(1) == 10 * Pow10(0); }
  }

  /** A number of `k` digits at most is one below the power of ten. */
  lemma {:induction false} DecimalLength(n: nat, k: nat)
    requires k > 0
    ensures |Decimal(n)| <= k <==> n < Pow10(k)
    decreases k
  {
    if n < 10 {
      TenAtLeast(k);
    } else if k == 1 {
      DecimalRoundTrip(n / 10);
      assert Pow10(1) == 10 * Pow10(0);
    } else {
      DecimalLength(n / 10, k - 1);
    }
  }
}
