/**
 * The simple regular-expression matcher that gtest uses where no POSIX
 * matcher is available, and the language it is meant to decide.
 */
module SimpleRegex {

  import opened Memory

  /** The suffix a C pointer `s + i` stands for. */
  function From(s: string, i: nat): string
    requires i <= |s|
  {
    s[i..]
  }

  // ------------------------------------------------------ character classes

  /** The 32 printable ASCII characters that are no letter, digit or space. */
  predicate IsAsciiPunct(ch: char) {
    '!' <= ch <= '/' || ':' <= ch <= '@' || '[' <= ch <= '`' || '{' <= ch <= '~'
  }

  predicate IsRepeat(ch: char) { ch == '?' || ch == '*' || ch == '+' }

  predicate IsAnchor(ch: char) { ch == '^' || ch == '$' }

  /** The operators of other dialects: ()[]{}| */
  predicate IsUnsupported(ch: char) {
    ch == '(' || ch == ')' || ch == '[' || ch == ']' || ch == '{' || ch == '}' || ch == '|'
  }

  predicate IsAsciiWhiteSpace(ch: char) {
    ch == ' ' || ch == '\U{0C}' || ch == '\n' || ch == '\r' || ch == '\t' || ch == '\U{0B}'
  }

  predicate IsAsciiWordChar(ch: char) {
    'a' <= ch <= 'z' || 'A' <= ch <= 'Z' || '0' <= ch <= '9' || ch == '_'
  }

  /** dDfnrsStvwW */
  predicate IsClassLetter(c: char) {
    c == 'd' || c == 'D' || c == 'f' || c == 'n' || c == 'r' || c == 's' ||
    c == 'S' || c == 't' || c == 'v' || c == 'w' || c == 'W'
  }

  predicate IsValidEscape(c: char) {
    IsAsciiPunct(c) || IsClassLetter(c)
  }

  predicate AtomMatchesChar(escaped: bool, patternChar: char, ch: char) {
    if escaped then
      match patternChar
      case 'd' => IsDigit(ch)
      case 'D' => !IsDigit(ch)
      case 'f' => ch == '\U{0C}'
      case 'n' => ch == '\n'
      case 'r' => ch == '\r'
      case 's' => IsAsciiWhiteSpace(ch)
      case 'S' => !IsAsciiWhiteSpace(ch)
      case 't' => ch == '\t'
      case 'v' => ch == '\U{0B}'
      case 'w' => IsAsciiWordChar(ch)
      case 'W' => !IsAsciiWordChar(ch)
      case _ => IsAsciiPunct(patternChar) && patternChar == ch
    else
      (patternChar == '.' && ch != '\n') || patternChar == ch
  }

  // -------------------------------------------------- patterns as syntax

  datatype Atom = Atom(escaped: bool, ch: char)

  datatype Times = Once | Optional | Star | Plus

  datatype Item = Item(atom: Atom, times: Times)

  datatype Items = NoItems | Then(first: Item, rest: Items)

  /** A simple regular expression: items between two optional anchors. */
  datatype Pattern = Pattern(fromStart: bool, items: Items, toEnd: bool)

  ghost predicate ValidAtom(a: Atom) {
    a.ch != '\0' &&
    if a.escaped then IsValidEscape(a.ch)
    else !(a.ch == '\\' || IsAnchor(a.ch) || IsRepeat(a.ch) || IsUnsupported(a.ch))
  }

  /** What may follow a backslash: punctuation, which it quotes, and the letters of classes and control characters. */
  ghost const ESCAPED: set<char> := {
    '^', '-', '!', '\"', '#', '$', '%', '&', '\'', '(', ')', '*', '+', ',', '.', '/', ':', ';', '<', '=', '>', '?', '@',
    '[', '\\', ']', '_', '`', '{', '|', '}', '~', 'd', 'D', 'f', 'n', 'r', 's', 'S', 't', 'v', 'w', 'W'
  }

  /** What has to be quoted, having a meaning here or in other dialects. */
  ghost const SPECIAL: set<char> := {'\\', '^', '$', '?', '*', '+', '(', ')', '[', ']', '{', '}', '|'}

  /** The characters that stand for themselves, and those that do so or for a class behind a backslash, one by one. */
  lemma AtomsAreSpelled(a: Atom)
    ensures ValidAtom(a) <==> if a.escaped then a.ch in ESCAPED else a.ch != '\0' && a.ch !in SPECIAL
  {
  }

  ghost predicate ValidItems(items: Items) {
    items.Then? ==> ValidAtom(items.first.atom) && ValidItems(items.rest)
  }

  ghost function PrintAtom(a: Atom): string {
    if a.escaped then ['\\', a.ch] else [a.ch]
  }

  ghost function PrintTimes(t: Times): string {
    match t
    case Once => ""
    case Optional => "?"
    case Star => "*"
    case Plus => "+"
  }

  ghost function PrintTail(items: Items, toEnd: bool): string {
    match items
    case NoItems => if toEnd then "$" else ""
    case Then(it, rest) => PrintAtom(it.atom) + (PrintTimes(it.times) + PrintTail(rest, toEnd))
  }

  ghost function Print(p: Pattern): string {
    (if p.fromStart then "^" else "") + PrintTail(p.items, p.toEnd)
  }

  /** `s` is the text of the pattern `p`, all of whose atoms are supported. */
  ghost predicate Spells(p: Pattern, s: string) {
    ValidItems(p.items) && Print(p) == s
  }

  // ---------------------------------------------------- what patterns mean

  ghost const DIGITS := iset c: char | '0' <= c <= '9'
  ghost const NEWLINES: iset<char> := iset{'\n'}
  ghost const SPACES := iset c: char | c in {' ', '\U{0C}', '\n', '\r', '\t', '\U{0B}'}
  ghost const WORD_CHARS := iset c: char | 'a' <= c <= 'z' || 'A' <= c <= 'Z' || '0' <= c <= '9' || c == '_'

  /** The characters an atom stands for. */
  ghost function ClassOf(a: Atom): iset<char> {
    if a.escaped then
      match a.ch
      case 'd' => DIGITS
      case 'D' => iset c: char | c !in DIGITS
      case 's' => SPACES
      case 'S' => iset c: char | c !in SPACES
      case 'w' => WORD_CHARS
      case 'W' => iset c: char | c !in WORD_CHARS
      case 'f' => iset{'\U{0C}'}
      case 'n' => iset{'\n'}
      case 'r' => iset{'\r'}
      case 't' => iset{'\t'}
      case 'v' => iset{'\U{0B}'}
      case c => iset{c}
    else if a.ch == '.' then iset c: char | c !in NEWLINES
    else iset{a.ch}
  }

  ghost predicate InRange(t: Times, n: nat) {
    match t
    case Once => n == 1
    case Optional => n <= 1
    case Star => true
    case Plus => n >= 1
  }

  /** The words of one item: a permitted number of characters of its class. */
  ghost predicate ItemWord(it: Item, w: string) {
    InRange(it.times, |w|) && forall i :: 0 <= i < |w| ==> w[i] in ClassOf(it.atom)
  }

  /** The words of a sequence of items: concatenations of their words. */
  ghost predicate Word(items: Items, w: string) {
    match items
    case NoItems => w == ""
    case Then(it, rest) => exists k :: 0 <= k <= |w| && ItemWord(it, w[..k]) && Word(rest, w[k..])
  }

  /** Some prefix of `s` is a word, and is all of `s` if `toEnd`. */
  ghost predicate HeadMatches(items: Items, toEnd: bool, s: string) {
    exists k :: 0 <= k <= |s| && Word(items, s[..k]) && (toEnd ==> k == |s|)
  }

  /** Some substring of `s` is a word and sits where the anchors ask. */
  ghost predicate Denotes(p: Pattern, s: string) {
    exists i, j :: 0 <= i <= j <= |s| && Word(p.items, s[i..j]) &&
                   (p.fromStart ==> i == 0) && (p.toEnd ==> j == |s|)
  }

  // ------------------------------------------------------------- lemmas

  lemma AtomMatchesItsClass(a: Atom, ch: char)
    requires ValidAtom(a)
    ensures AtomMatchesChar(a.escaped, a.ch, ch) <==> ch in ClassOf(a)
  {
    if a.escaped {
      assert IsAsciiWhiteSpace(ch) <==> ch in SPACES;
    }
  }

  /** A word of several items starts with a word of the first one. */
  lemma HeadMatchesCons(it: Item, rest: Items, toEnd: bool, s: string)
    ensures HeadMatches(Then(it, rest), toEnd, s) <==>
            exists j :: 0 <= j <= |s| && ItemWord(it, s[..j]) && HeadMatches(rest, toEnd, s[j..])
  {
    var all := Then(it, rest);
    if HeadMatches(all, toEnd, s) {
      var k :| 0 <= k <= |s| && Word(all, s[..k]) && (toEnd ==> k == |s|);
      var w := s[..k];
      var j :| 0 <= j <= |w| && ItemWord(it, w[..j]) && Word(rest, w[j..]);
      assert w[..j] == s[..j] && w[j..] == s[j..][..k - j];
      assert HeadMatches(rest, toEnd, s[j..]);
    }
    if j :| 0 <= j <= |s| && ItemWord(it, s[..j]) && HeadMatches(rest, toEnd, s[j..]) {
      var k :| 0 <= k <= |s[j..]| && Word(rest, s[j..][..k]) && (toEnd ==> k == |s[j..]|);
      var w := s[..j + k];
      assert w[..j] == s[..j] && w[j..] == s[j..][..k];
      assert Word(all, w);
    }
  }

  lemma DenotesSomewhere(p: Pattern, s: string)
    requires !p.fromStart
    ensures Denotes(p, s) <==> exists i :: 0 <= i <= |s| && HeadMatches(p.items, p.toEnd, s[i..])
  {
    if Denotes(p, s) {
      var i, j :| 0 <= i <= j <= |s| && Word(p.items, s[i..j]) && (p.toEnd ==> j == |s|);
      assert s[i..][..j - i] == s[i..j];
      assert HeadMatches(p.items, p.toEnd, s[i..]);
    }
    if i :| 0 <= i <= |s| && HeadMatches(p.items, p.toEnd, s[i..]) {
      var k :| 0 <= k <= |s[i..]| && Word(p.items, s[i..][..k]) && (p.toEnd ==> k == |s[i..]|);
      assert s[i..][..k] == s[i..i + k];
    }
  }

  lemma DenotesAtStart(p: Pattern, s: string)
    requires p.fromStart
    ensures Denotes(p, s) <==> HeadMatches(p.items, p.toEnd, s)
  {
    if Denotes(p, s) {
      var i, j :| 0 <= i <= j <= |s| && Word(p.items, s[i..j]) && i == 0 && (p.toEnd ==> j == |s|);
      assert s[..j] == s[i..j];
    }
    if HeadMatches(p.items, p.toEnd, s) {
      var k :| 0 <= k <= |s| && Word(p.items, s[..k]) && (p.toEnd ==> k == |s|);
      assert s[0..k] == s[..k];
    }
  }

  /** Reading `s` at `i` when what is left there is `a` followed by `b`. */
  lemma Consume(s: string, i: nat, a: string, b: string)
    requires i <= |s| && s[i..] == a + b
    ensures i + |a| <= |s| && s[i + |a|..] == b
    ensures forall k :: 0 <= k < |a| ==> s[i + k] == a[k]
    ensures b != "" ==> i + |a| < |s| && s[i + |a|] == b[0]
    ensures b == "" ==> i + |a| == |s|
  {
    assert s[i..][|a|..] == b;
    forall k | 0 <= k < |a| ensures s[i + k] == a[k] { assert s[i..][k] == a[k]; }
    if b != "" { assert s[i..][|a|] == b[0]; }
  }

  /** What the printed form of an item list starts with. */
  lemma PrintTailShape(items: Items, toEnd: bool)
    requires ValidItems(items)
    ensures !IsRepeat(At(PrintTail(items, toEnd), 0))
    ensures At(PrintTail(items, toEnd), 0) != '^'
    ensures items.Then? ==> PrintTail(items, toEnd) != "" && At(PrintTail(items, toEnd), 0) != '$'
    ensures items.Then? ==>
              At(PrintTail(items, toEnd), 0) == (if items.first.atom.escaped then '\\' else items.first.atom.ch)
  {
  }

  /** How the text of a non-empty item list is cut into its first item and the rest. */
  lemma PrintTailParts(regex: string, it: Item, rest: Items, toEnd: bool)
    requires ValidAtom(it.atom) && ValidItems(rest) && regex == PrintTail(Then(it, rest), toEnd)
    ensures var k := |PrintAtom(it.atom)|;
      && k <= |regex| && regex[..k] == PrintAtom(it.atom)
      && (it.times == Once ==> !IsRepeat(At(regex, k)) && regex[k..] == PrintTail(rest, toEnd))
      && (it.times != Once ==> IsRepeat(At(regex, k)) && PrintTimes(it.times) == [At(regex, k)]
                               && k + 1 <= |regex| && regex[k + 1..] == PrintTail(rest, toEnd))
  {
    var k := |PrintAtom(it.atom)|;
    var more := PrintTimes(it.times) + PrintTail(rest, toEnd);
    assert regex[0..] == regex;
    Consume(regex, 0, PrintAtom(it.atom), more);
    Consume(regex, k, PrintTimes(it.times), PrintTail(rest, toEnd));
    PrintTailShape(rest, toEnd);
  }

  // ------------------------------------------------------------ the matcher

  /** The do/while over every starting point. */
  method MatchRegexAnywhere(regex: string, str: string) returns (r: bool)
    requires NulFree(str)
    requires exists p :: Spells(p, regex)
    ensures forall p :: Spells(p, regex) ==> (r <==> Denotes(p, str))
  {
    ghost var p :| Spells(p, regex);
    forall q | Spells(q, regex) ensures q == p {
      PrintInjective(p, q);
    }
    PrintTailShape(p.items, p.toEnd);
    if At(regex, 0) == '^' {
      assert regex[1..] == PrintTail(p.items, p.toEnd);
      r := MatchRegexAtHead(From(regex, 1), str, p.items, p.toEnd);
      DenotesAtStart(p, str);
      return;
    }
    assert !p.fromStart && regex == PrintTail(p.items, p.toEnd);
    DenotesSomewhere(p, str);
    var i := 0;
    while true
      invariant i <= |str|
      invariant forall k :: 0 <= k < i ==> !HeadMatches(p.items, p.toEnd, str[k..])
      decreases |str| - i
    {
      var here := MatchRegexAtHead(regex, From(str, i), p.items, p.toEnd);
      if here { return true; }
      if At(str, i) == '\0' { break; }
      i := i + 1;
    }
    return false;
  }

  /** The recursion on the pattern; the ghost arguments say what `regex` is. */
  method MatchRegexAtHead(regex: string, str: string, ghost items: Items, ghost toEnd: bool) returns (r: bool)
    requires NulFree(str) && ValidItems(items) && regex == PrintTail(items, toEnd)
    ensures r <==> HeadMatches(items, toEnd, str)
    decreases |regex|, 0
  {
    PrintTailShape(items, toEnd);
    if At(regex, 0) == '\0' {
      assert items == NoItems && Word(items, str[..0]);
      return true;
    }
    if At(regex, 0) == '$' {
      assert items == NoItems && Word(items, str[..0]);
      return At(str, 0) == '\0';
    }
    ghost var it, rest := items.first, items.rest;
    PrintTailParts(regex, it, rest, toEnd);
    HeadMatchesCons(it, rest, toEnd, str);

    var escaped := At(regex, 0) == '\\';
    var rx := if escaped then From(regex, 1) else regex;
    assert regex[..|PrintAtom(it.atom)|][0] == regex[0];
    assert At(rx, 0) == it.atom.ch;
    if IsRepeat(At(rx, 1)) {
      assert rx[2..] == PrintTail(rest, toEnd);
      r := MatchRepetitionAndRegexAtHead(escaped, At(rx, 0), At(rx, 1), From(rx, 2), str, it, rest, toEnd);
    } else {
      assert rx[1..] == PrintTail(rest, toEnd);
      OneCharacter(it, rest, toEnd, str);
      if At(str, 0) != '\0' && AtomMatchesChar(escaped, At(rx, 0), At(str, 0)) {
        r := MatchRegexAtHead(From(rx, 1), From(str, 1), rest, toEnd);
      } else {
        r := false;
      }
    }
  }

  lemma OneCharacter(it: Item, rest: Items, toEnd: bool, str: string)
    requires ValidAtom(it.atom) && it.times == Once
    ensures HeadMatches(Then(it, rest), toEnd, str) <==>
            str != "" && AtomMatchesChar(it.atom.escaped, it.atom.ch, str[0]) && HeadMatches(rest, toEnd, str[1..])
  {
    HeadMatchesCons(it, rest, toEnd, str);
    if str != "" {
      AtomMatchesItsClass(it.atom, str[0]);
      assert ItemWord(it, str[..1]) <==> str[0] in ClassOf(it.atom);
    }
  }

  /** The loop over how often the first atom is used. */
  method MatchRepetitionAndRegexAtHead(escaped: bool, c: char, repeat: char, regex: string, str: string,
                                       ghost it: Item, ghost rest: Items, ghost toEnd: bool)
    returns (r: bool)
    requires NulFree(str) && ValidAtom(it.atom) && ValidItems(rest)
    requires it.times != Once && PrintTimes(it.times) == [repeat] && it.atom == Atom(escaped, c)
    requires regex == PrintTail(rest, toEnd)
    ensures r <==> exists j :: 0 <= j <= |str| && ItemWord(it, str[..j]) && HeadMatches(rest, toEnd, str[j..])
    decreases |regex|, 1
  {
    var minCount := if repeat == '+' then 1 else 0;
    var i := 0;
    while repeat != '?' || i <= 1
      invariant 0 <= i <= |str|
      invariant repeat == '?' ==> i <= 2
      invariant forall k :: 0 <= k < i ==> str[k] in ClassOf(it.atom)
      invariant forall j :: 0 <= j < i && minCount <= j && (repeat == '?' ==> j <= 1) ==>
                              !HeadMatches(rest, toEnd, str[j..])
      decreases |str| - i
    {
      if i >= minCount {
        var tail := MatchRegexAtHead(regex, From(str, i), rest, toEnd);
        if tail {
          assert ItemWord(it, str[..i]);
          return true;
        }
      }
      if At(str, i) == '\0' {
        return false;
      }
      AtomMatchesItsClass(it.atom, str[i]);
      if !AtomMatchesChar(escaped, c, At(str, i)) {
        forall j | i < j <= |str| ensures !ItemWord(it, str[..j]) {
          assert str[..j][i] == str[i];
        }
        return false;
      }
      i := i + 1;
    }
    return false;
  }

  // ---------------------------------------------------------- the validator

  /** The scan of ValidateRegex over what is left of the pattern. */
  predicate ScanOk(s: string, atStart: bool, prev: bool) {
    if s == "" then true
    else if s[0] == '\\' then
      |s| > 1 && IsValidEscape(s[1]) && ScanOk(s[2..], false, true)
    else
      && !(s[0] == '^' && !atStart)
      && !(s[0] == '$' && |s| > 1)
      && !IsUnsupported(s[0])
      && !(IsRepeat(s[0]) && !prev)
      && ScanOk(s[1..], false, !(IsAnchor(s[0]) || IsRepeat(s[0])))
  }

  /** What the scan asks of an unescaped character where it stands. */
  predicate PlainOk(s: string, i: nat, prev: bool)
    requires i < |s|
  {
    && !(s[i] == '^' && i > 0)
    && !(s[i] == '$' && At(s, i + 1) != '\0')
    && !IsUnsupported(s[i])
    && !(IsRepeat(s[i]) && !prev)
  }

  /** ScanOk on the suffix at `i`, by position as the loop sees it. */
  predicate ScanFrom(s: string, i: nat, prev: bool)
    requires i <= |s|
    decreases |s| - i
  {
    if i == |s| then true
    else if s[i] == '\\' then i + 1 < |s| && IsValidEscape(s[i + 1]) && ScanFrom(s, i + 2, true)
    else PlainOk(s, i, prev) && ScanFrom(s, i + 1, !(IsAnchor(s[i]) || IsRepeat(s[i])))
  }

  lemma {:induction false} ScanFromIsScanOk(s: string, i: nat, prev: bool)
    requires NulFree(s) && i <= |s|
    ensures ScanFrom(s, i, prev) <==> ScanOk(s[i..], i == 0, prev)
    decreases |s| - i
  {
    if i < |s| {
      if s[i] == '\\' {
        if i + 1 < |s| { ScanFromIsScanOk(s, i + 2, true); assert s[i..][2..] == s[i + 2..]; }
      } else {
        ScanFromIsScanOk(s, i + 1, !(IsAnchor(s[i]) || IsRepeat(s[i])));
        assert s[i..][1..] == s[i + 1..];
      }
    }
  }

  method ValidateRegex(regex: string) returns (r: bool)
    requires NulFree(regex)
    ensures r <==> exists p :: Spells(p, regex)
  {
    ValidIffPrinted(regex);
    var isValid := true;
    var prevRepeatable := false;
    var i := 0;
    while At(regex, i) != '\0'
      invariant i <= |regex|
      invariant ScanFrom(regex, 0, false) <==> isValid && ScanFrom(regex, i, prevRepeatable)
      decreases |regex| - i
    {
      if At(regex, i) == '\\' {
        i := i + 1;
        if At(regex, i) == '\0' {
          return false;
        }
        if !IsValidEscape(At(regex, i)) {
          isValid := false;
        }
        prevRepeatable := true;
      } else {
        var ch := At(regex, i);
        if ch == '^' && i > 0 {
          isValid := false;
        } else if ch == '$' && At(regex, i + 1) != '\0' {
          isValid := false;
        } else if IsUnsupported(ch) {
          isValid := false;
        } else if IsRepeat(ch) && !prevRepeatable {
          isValid := false;
        }
        prevRepeatable := !(IsAnchor(ch) || IsRepeat(ch));
      }
      i := i + 1;
    }
    return isValid;
  }

  lemma ValidIffPrinted(s: string)
    requires NulFree(s)
    ensures ScanFrom(s, 0, false) <==> exists p :: Spells(p, s)
  {
    ScanFromIsScanOk(s, 0, false);
    assert s[0..] == s;
    if ScanOk(s, true, false) { ScannedIsPrinted(s); }
    if p :| Spells(p, s) { PrintedIsScanned(p, s); }
  }

  lemma ScannedIsPrinted(s: string)
    requires NulFree(s) && ScanOk(s, true, false)
    ensures exists p :: Spells(p, s)
  {
    var start := s != "" && s[0] == '^';
    var t, items, toEnd := ParseTail(if start then s[1..] else s, !start, false);
    PrintOnce(PrintTail(items, toEnd));
    assert Spells(Pattern(start, items, toEnd), s);
  }

  lemma PrintedIsScanned(p: Pattern, s: string)
    requires Spells(p, s)
    ensures ScanOk(s, true, false)
  {
    var tail := PrintTail(p.items, p.toEnd);
    PrintTailShape(p.items, p.toEnd);
    PrintedScans(tail, !p.fromStart, p.items, p.toEnd, false);
    assert p.fromStart ==> s[1..] == tail;
    assert !p.fromStart ==> s == tail;
  }

  /** What is left to scan is a repetition mark, if one may come, and items. */
  lemma {:induction false} ParseTail(s: string, atStart: bool, prev: bool)
    returns (t: Times, items: Items, toEnd: bool)
    requires NulFree(s) && ScanOk(s, atStart, prev)
    requires atStart ==> s == "" || s[0] != '^'
    ensures ValidItems(items) && (!prev ==> t == Once)
    ensures s == PrintTimes(t) + PrintTail(items, toEnd)
    decreases |s|
  {
    t, items, toEnd := Once, NoItems, false;
    if s == "" {
    } else if s[0] == '$' {
      toEnd := true;
      PrintOnce(s);
    } else if IsRepeat(s[0]) {
      RepeatNeedsAtom(s, atStart, prev);
      var _, rest, e := ParseTail(s[1..], false, false);
      t := if s[0] == '?' then Optional else if s[0] == '*' then Star else Plus;
      items, toEnd := rest, e;
      PrintOnce(PrintTail(rest, e));
    } else {
      var a := ParseAtom(s, atStart, prev);
      var t', rest, e := ParseTail(s[|PrintAtom(a)|..], false, true);
      items, toEnd := Then(Item(a, t'), rest), e;
      PrintOnce(s);
    }
  }

  lemma PrintOnce(tail: string)
    ensures PrintTimes(Once) + tail == tail
  {
  }

  lemma RepeatNeedsAtom(s: string, atStart: bool, prev: bool)
    requires s != "" && IsRepeat(s[0]) && ScanOk(s, atStart, prev)
    ensures prev && ScanOk(s[1..], false, false)
  {
  }

  lemma ParseAtom(s: string, atStart: bool, prev: bool) returns (a: Atom)
    requires NulFree(s) && s != "" && ScanOk(s, atStart, prev)
    requires !IsRepeat(s[0]) && s[0] != '$' && (atStart ==> s[0] != '^')
    ensures ValidAtom(a) && |PrintAtom(a)| <= |s|
    ensures s == PrintAtom(a) + s[|PrintAtom(a)|..] && ScanOk(s[|PrintAtom(a)|..], false, true)
  {
    a := if s[0] == '\\' then Atom(true, s[1]) else Atom(false, s[0]);
  }

  lemma {:induction false} PrintedScans(s: string, atStart: bool, items: Items, toEnd: bool, prev: bool)
    requires ValidItems(items) && s == PrintTail(items, toEnd)
    ensures ScanOk(s, atStart, prev)
    decreases items
  {
    if items.Then? {
      var a, t := items.first.atom, items.first.times;
      var tail := PrintTail(items.rest, toEnd);
      PrintedScans(tail, false, items.rest, toEnd, t == Once);
      assert ScanOk(PrintTimes(t) + tail, false, true) by {
        if t != Once { assert (PrintTimes(t) + tail)[1..] == tail; } else { assert PrintTimes(t) + tail == tail; }
      }
      AtomScans(a, PrintTimes(t) + tail, atStart, prev);
    }
  }

  lemma AtomScans(a: Atom, more: string, atStart: bool, prev: bool)
    requires ValidAtom(a) && ScanOk(more, false, true)
    ensures ScanOk(PrintAtom(a) + more, atStart, prev)
  {
    assert (PrintAtom(a) + more)[|PrintAtom(a)|..] == more;
  }

  /** A string is the printed form of at most one pattern. */
  lemma PrintInjective(p: Pattern, q: Pattern)
    requires ValidItems(p.items) && ValidItems(q.items) && Print(p) == Print(q)
    ensures p == q
  {
    PrintTailShape(p.items, p.toEnd);
    PrintTailShape(q.items, q.toEnd);
    assert p.fromStart == (At(Print(p), 0) == '^');
    assert q.fromStart == (At(Print(q), 0) == '^');
    var k := if p.fromStart then 1 else 0;
    assert Print(p)[k..] == PrintTail(p.items, p.toEnd);
    assert Print(q)[k..] == PrintTail(q.items, q.toEnd);
    PrintTailInjective(p.items, p.toEnd, q.items, q.toEnd);
  }

  lemma {:induction false} PrintTailInjective(a: Items, ae: bool, b: Items, be: bool)
    requires ValidItems(a) && ValidItems(b) && PrintTail(a, ae) == PrintTail(b, be)
    ensures a == b && ae == be
  {
    PrintTailShape(a, ae);
    PrintTailShape(b, be);
    if a.Then? && b.Then? {
      var s := PrintTail(a, ae);
      var x := PrintTimes(a.first.times) + PrintTail(a.rest, ae);
      var y := PrintTimes(b.first.times) + PrintTail(b.rest, be);
      assert s[0..] == s;
      Consume(s, 0, PrintAtom(a.first.atom), x);
      Consume(s, 0, PrintAtom(b.first.atom), y);
      assert a.first.atom == b.first.atom by {
        assert s[0 + 0] == PrintAtom(a.first.atom)[0] == PrintAtom(b.first.atom)[0];
        if a.first.atom.escaped && b.first.atom.escaped {
          assert s[0 + 1] == PrintAtom(a.first.atom)[1] == PrintAtom(b.first.atom)[1];
        }
      }
      TimesInjective(a.first.times, a.rest, ae, b.first.times, b.rest, be);
      PrintTailInjective(a.rest, ae, b.rest, be);
    }
  }

  lemma TimesInjective(t: Times, a: Items, ae: bool, u: Times, b: Items, be: bool)
    requires ValidItems(a) && ValidItems(b)
    requires PrintTimes(t) + PrintTail(a, ae) == PrintTimes(u) + PrintTail(b, be)
    ensures t == u && PrintTail(a, ae) == PrintTail(b, be)
  {
    PrintTailShape(a, ae);
    PrintTailShape(b, be);
    var x, y := PrintTail(a, ae), PrintTail(b, be);
    assert t == u by {
      assert At(PrintTimes(t) + x, 0) == if t == Once then At(x, 0) else PrintTimes(t)[0];
      assert At(PrintTimes(u) + y, 0) == if u == Once then At(y, 0) else PrintTimes(u)[0];
    }
    assert x == (PrintTimes(t) + x)[|PrintTimes(t)|..];
    assert y == (PrintTimes(u) + y)[|PrintTimes(u)|..];
  }

  // ------------------------------------------------------------ class RE

  /** RE::PartialMatch on a pattern that RE::Init has validated. */
  method PartialMatch(regex: string, str: string) returns (r: bool)
    requires NulFree(regex) && NulFree(str)
    ensures r <==> exists p :: Spells(p, regex) && Denotes(p, str)
  {
    r := ValidateRegex(regex);
    if r {
      r := MatchRegexAnywhere(regex, str);
    }
  }

  /** The pattern RE::Init prepares for a full match. */
  function FullPattern(regex: string): string {
    (if At(regex, 0) != '^' then "^" else "") + regex +
    (if |regex| == 0 || regex[|regex| - 1] != '$' then "$" else "")
  }

  ghost predicate LastIsEscapedDollar(items: Items) {
    items.Then? &&
    if items.rest == NoItems then items.first == Item(Atom(true, '$'), Once) else LastIsEscapedDollar(items.rest)
  }

  /** The pattern has no final anchor of its own, yet its last character is `$`. */
  ghost predicate HidesAnchor(p: Pattern) {
    !p.toEnd && LastIsEscapedDollar(p.items)
  }

  method FullMatch(regex: string, str: string) returns (r: bool)
    requires NulFree(regex) && NulFree(str)
    ensures r <==> exists p :: Spells(p, regex) && HeadMatches(p.items, !HidesAnchor(p), str)
  {
    r := ValidateRegex(regex);
    if r {
      ghost var p :| Spells(p, regex);
      forall q | Spells(q, regex) ensures q == p { PrintInjective(p, q); }
      ghost var full := Pattern(true, p.items, !HidesAnchor(p));
      FullPatternSpells(p, regex);
      r := MatchRegexAnywhere(FullPattern(regex), str);
      DenotesAtStart(full, str);
    }
  }

  lemma FullPatternSpells(p: Pattern, regex: string)
    requires Spells(p, regex)
    ensures Spells(Pattern(true, p.items, !HidesAnchor(p)), FullPattern(regex))
  {
    StartOfRegex(p, regex);
    EndOfRegex(p, regex);
    PrintTailEnds(p.items);
  }

  lemma StartOfRegex(p: Pattern, regex: string)
    requires Spells(p, regex)
    ensures (if At(regex, 0) != '^' then "^" else "") + regex == "^" + PrintTail(p.items, p.toEnd)
  {
    PrintTailShape(p.items, p.toEnd);
  }

  lemma EndOfRegex(p: Pattern, regex: string)
    requires Spells(p, regex)
    ensures |regex| > 0 && regex[|regex| - 1] == '$' <==> p.toEnd || LastIsEscapedDollar(p.items)
  {
    var tail := PrintTail(p.items, p.toEnd);
    PrintTailEnds(p.items);
    assert tail != "" ==> regex[|regex| - 1] == tail[|tail| - 1];
  }

  /** With the anchor the text is the text without it and a `$`; without it the last character tells. */
  lemma {:induction false} PrintTailEnds(items: Items)
    requires ValidItems(items)
    ensures PrintTail(items, true) == PrintTail(items, false) + "$"
    ensures items.Then? ==> PrintTail(items, false) != ""
    ensures items.Then? ==> (PrintTail(items, false)[|PrintTail(items, false)| - 1] == '$'
            <==> LastIsEscapedDollar(items))
  {
    if items.Then? {
      PrintTailEnds(items.rest);
      var it, tail := items.first, PrintTail(items.rest, false);
      assert PrintAtom(it.atom) + (PrintTimes(it.times) + (tail + "$"))
             == PrintAtom(it.atom) + (PrintTimes(it.times) + tail) + "$";
    }
  }

  /** RE::FullMatch means "the whole string is a word" exactly when no escaped `$` ends the pattern. */
  lemma FullMatchExact(p: Pattern)
    requires ValidItems(p.items)
    ensures (forall s :: NulFree(s) ==> (HeadMatches(p.items, !HidesAnchor(p), s) <==> Word(p.items, s)))
            <==> !HidesAnchor(p)
  {
    forall s | !HidesAnchor(p) ensures HeadMatches(p.items, true, s) <==> Word(p.items, s) {
      assert s[..|s|] == s;
    }
    if HidesAnchor(p) {
      var w := SomeWord(p.items);
      var s := w + "a";
      assert s[..|w|] == w && HeadMatches(p.items, false, s);
      assert NulFree(s) && !Word(p.items, s) by {
        if Word(p.items, s) { EndsInDollar(p.items, s); }
      }
    }
  }

  /** The pattern `\$` is taken to match the whole of `$a`. */
  lemma EscapedDollar(p: Pattern, regex: string, s: string)
    requires p == Pattern(false, Then(Item(Atom(true, '$'), Once), NoItems), false) && regex == "\\$" && s == "$a"
    ensures Spells(p, regex) && HidesAnchor(p)
    ensures HeadMatches(p.items, !HidesAnchor(p), s) && !Word(p.items, s)
  {
    var it := p.items.first;
    assert PrintTail(NoItems, false) == "" && PrintAtom(it.atom) == regex;
    assert s[..1] == "$" && ItemWord(it, s[..1]) && Word(NoItems, s[..1][1..]);
    assert Word(p.items, s[..1]) && HeadMatches(p.items, false, s);
    if Word(p.items, s) { EndsInDollar(p.items, s); }
  }

  lemma {:induction false} SomeWord(items: Items) returns (w: string)
    requires ValidItems(items)
    ensures Word(items, w) && NulFree(w)
  {
    w := "";
    if items.Then? {
      var more := SomeWord(items.rest);
      var c := SomeCharacter(items.first.atom);
      w := [c] + more;
      assert w[..1] == [c] && w[1..] == more && ItemWord(items.first, [c]);
    }
  }

  lemma SomeCharacter(a: Atom) returns (c: char)
    requires ValidAtom(a)
    ensures c in ClassOf(a) && c != '\0'
  {
    if a.escaped && IsClassLetter(a.ch) {
      c := match a.ch
        case 'd' => '0' case 'w' => '0' case 's' => ' ' case 'D' => 'a' case 'S' => 'a' case 'W' => ' '
        case 'f' => '\U{0C}' case 'n' => '\n' case 'r' => '\r' case 't' => '\t' case _ => '\U{0B}';
    } else {
      c := a.ch;
    }
  }

  lemma {:induction false} EndsInDollar(items: Items, w: string)
    requires LastIsEscapedDollar(items) && Word(items, w)
    ensures w != "" && w[|w| - 1] == '$'
  {
    var k :| 0 <= k <= |w| && ItemWord(items.first, w[..k]) && Word(items.rest, w[k..]);
    if items.rest == NoItems {
      assert w[..k] == w && w[0] in ClassOf(Atom(true, '$'));
    } else {
      EndsInDollar(items.rest, w[k..]);
    }
  }
}
