/**
 * Why a call of jsmn_parse stops, and with which code, told from the text
 * alone: what has been read, and what stands next. A string that is cut off
 * asks for more text, one with a bad escape never will be right.
 */
module JsmnStops {
  import opened Memory
  import opened JsmnModel
  import opened JsmnInvariants
  import opened JsmnPieces
  import opened JsmnBrackets
  import opened JsmnCommas

  // ----------------------------------------------------------- what stands next

  /** The string literal that starts at `n` ends at `k`. */
  ghost predicate EndsText(js: string, n: nat, k: nat) {
    n < k < |js| && js[k] == '\"' && IsBody(js[n + 1..k])
  }

  /** A whole string literal. */
  ghost predicate TextAhead(js: string, n: nat) {
    n < |js| && js[n] == '\"' && exists k: nat :: EndsText(js, n, k)
  }

  /** The string literal that starts at `n` goes on with `rest`. */
  ghost predicate GoesOnWith(js: string, n: nat, rest: string)
    requires n < |js|
  {
    IsBody(js[n + 1..] + rest)
  }

  /** The beginning of one: it can be continued to what may stand between quotes. */
  ghost predicate CutAhead(js: string, n: nat) {
    n < |js| && js[n] == '\"' && exists rest :: GoesOnWith(js, n, rest)
  }

  predicate StartsWord(c: char) {
    !IsBlank(c) && c !in {'{', '[', '}', ']', ':', ',', '\"'}
  }

  /** An unquoted value with a character that is not printable ASCII. */
  ghost predicate BadWordAhead(js: string, n: nat) {
    n < |js| && StartsWord(js[n]) && exists k: nat :: IsBadIn(js, n, k)
  }

  ghost predicate IsBadIn(js: string, n: nat, k: nat) {
    && n <= k < |js| && !(32 <= js[k] as int < 127) && !EndsPrimitive(js[k])
    && forall j :: n <= j < k ==> IsWordChar(js[j])
  }

  ghost predicate BadAhead(js: string, n: nat) {
    BadWordAhead(js, n) || (n < |js| && js[n] == '\"' && !TextAhead(js, n) && !CutAhead(js, n))
  }

  ghost predicate TokenAhead(js: string, n: nat) {
    n < |js| && (js[n] == '{' || js[n] == '[' || TextAhead(js, n) || (StartsWord(js[n]) && !BadWordAhead(js, n)))
  }

  // --------------------------------------------------------------- how it is read

  lemma {:induction false} HexOfSome(js: string, i: nat, n: nat)
    requires NulFree(js) && i <= |js| && HexEnd(js, i, n) != -1
    ensures HexEnd(js, i, n) == Min(i + n, |js|)
    ensures forall k :: i <= k < Min(i + n, |js|) ==> IsHex(js[k])
    decreases n
  {
    if n > 0 && i < |js| { HexOfSome(js, i + 1, n - 1); }
  }

  lemma {:induction false} HexOfAll(js: string, i: nat, n: nat)
    requires NulFree(js) && i <= |js| && forall k :: i <= k < Min(i + n, |js|) ==> IsHex(js[k])
    ensures HexEnd(js, i, n) == Min(i + n, |js|)
    decreases n
  {
    if n > 0 && i < |js| { HexOfAll(js, i + 1, n - 1); }
  }

  /** Zeros for the digits that are missing. */
  lemma HexIsCompleted(js: string, i: nat) returns (rest: string)
    requires i + 2 <= |js| <= i + 6 && js[i] == '\\' && js[i + 1] == 'u'
    requires forall k :: i + 2 <= k < |js| ==> IsHex(js[k])
    ensures IsBody(js[i..] + rest)
  {
    rest := Copies('0', i + 6 - |js|);
    var s := js[i..] + rest;
    forall k | 2 <= k < 6 ensures IsHex(s[k]) { if k < |js| - i { assert s[k] == js[i + k]; } }
    assert s[6..] == "";
  }

  lemma {:induction false} CutIsCompleted(js: string, i: nat) returns (rest: string)
    requires NulFree(js) && i <= |js| && StringLexeme(js, i) == Cut
    ensures IsBody(js[i..] + rest)
    decreases |js| - i
  {
    rest := "";
    if i == |js| {
      assert js[i..] + rest == "";
    } else if js[i] != '\\' {
      rest := CutIsCompleted(js, i + 1);
      assert (js[i..] + rest)[1..] == js[i + 1..] + rest;
    } else if i + 1 == |js| {
      rest := "n";
      assert (js[i..] + rest)[2..] == "";
    } else if IsEscape(js[i + 1]) {
      rest := CutIsCompleted(js, i + 2);
      assert (js[i..] + rest)[2..] == js[i + 2..] + rest;
    } else {
      HexOfSome(js, i + 2, 4);
      if |js| <= i + 6 {
        rest := HexIsCompleted(js, i);
      } else {
        rest := CutIsCompleted(js, i + 6);
        assert (js[i..] + rest)[6..] == js[i + 6..] + rest;
      }
    }
  }

  lemma {:induction false} CompletedIsCut(js: string, i: nat, rest: string)
    requires NulFree(js) && i <= |js| && IsBody(js[i..] + rest)
    ensures StringLexeme(js, i) == Cut
    decreases |js| - i
  {
    var s := js[i..] + rest;
    if i < |js| {
      assert s[0] == js[i];
      if js[i] != '\\' {
        assert s[1..] == js[i + 1..] + rest;
        CompletedIsCut(js, i + 1, rest);
      } else if i + 1 < |js| {
        assert s[1] == js[i + 1];
        if IsEscape(js[i + 1]) {
          assert s[2..] == js[i + 2..] + rest;
          CompletedIsCut(js, i + 2, rest);
        } else {
          HexIsCut(js, i, rest);
          if |js| > i + 6 {
            assert s[6..] == js[i + 6..] + rest;
            CompletedIsCut(js, i + 6, rest);
          }
        }
      }
    }
  }

  lemma HexIsCut(js: string, i: nat, rest: string)
    requires NulFree(js) && i + 1 < |js| && js[i] == '\\' && !IsEscape(js[i + 1]) && IsBody(js[i..] + rest)
    ensures js[i + 1] == 'u' && HexEnd(js, i + 2, 4) == Min(i + 6, |js|)
  {
    var s := js[i..] + rest;
    assert s[0] == js[i] && s[1] == js[i + 1];
    forall k | i + 2 <= k < Min(i + 6, |js|) ensures IsHex(js[k]) { assert s[k - i] == js[k]; }
    HexOfAll(js, i + 2, 4);
  }

  /** A string is cut off exactly if it can be continued, and whole exactly if it ends. */
  lemma TextIsRead(js: string, n: nat)
    requires NulFree(js) && n < |js| && js[n] == '\"'
    ensures LexemeAt(js, n) == Cut <==> CutAhead(js, n)
    ensures LexemeAt(js, n).Quoted? <==> TextAhead(js, n)
  {
    if LexemeAt(js, n) == Cut { var rest := CutIsCompleted(js, n + 1); assert GoesOnWith(js, n, rest); }
    if rest :| GoesOnWith(js, n, rest) { CompletedIsCut(js, n + 1, rest); }
    if LexemeAt(js, n).Quoted? { BodyRead(js, n + 1); assert EndsText(js, n, LexemeAt(js, n).end); }
    if k: nat :| EndsText(js, n, k) {
      var body := js[n + 1..k];
      assert StandsAt(js, n + 1, body);
      BodyIsRead(js, n + 1, body);
    }
  }

  lemma {:induction false} WordIsBad(js: string, i: nat, k: nat)
    requires IsBadIn(js, i, k) && NulFree(js)
    ensures PrimitiveEnd(js, i) == -1
    decreases k - i
  {
    if i < k { WordIsBad(js, i + 1, k); }
  }

  lemma {:induction false} BadIsFound(js: string, i: nat) returns (k: nat)
    requires i <= |js| && PrimitiveEnd(js, i) == -1
    ensures IsBadIn(js, i, k)
    decreases |js| - i
  {
    if 32 <= js[i] as int < 127 { k := BadIsFound(js, i + 1); } else { k := i; }
  }

  lemma WordIsJudged(js: string, n: nat)
    requires NulFree(js) && n < |js| && StartsWord(js[n])
    ensures if BadWordAhead(js, n) then LexemeAt(js, n) == Bad else LexemeAt(js, n).Bare?
  {
    if PrimitiveEnd(js, n) == -1 { var k := BadIsFound(js, n); }
    if k: nat :| IsBadIn(js, n, k) { WordIsBad(js, n, k); }
  }

  /** The lexeme at a position, from what stands there. */
  lemma AheadIsRead(js: string, n: nat)
    requires NulFree(js) && n < |js|
    ensures LexemeAt(js, n) == Cut <==> CutAhead(js, n)
    ensures LexemeAt(js, n) == Bad <==> BadAhead(js, n)
    ensures MakesToken(LexemeAt(js, n)) <==> TokenAhead(js, n)
  {
    if js[n] == '\"' { TextIsRead(js, n); }
    else if StartsWord(js[n]) { WordIsJudged(js, n); }
  }

  // ------------------------------------------------------------ filling a call

  /** The text up to `n` can be read: its brackets are in order, there is room, and no comma strays. */
  ghost predicate IsReached(v: Variant, js: string, cap: nat, ps: seq<Piece>, n: nat) {
    && SpellsPart(ps, js, 0, n) && Follow(v, START, ps, 0).Some? && TokenCount(ps) <= cap
    && (v == Links ==> AllAnswered(v, OpenLedger(v), ps))
  }

  lemma ReachedIsFed(v: Variant, js: string, cap: nat, ps: seq<Piece>, n: nat)
    requires SpellsPart(ps, js, 0, n)
    ensures var f := Feed(v, cap, INIT, ps);
      && (IsReached(v, js, cap, ps, n) <==> f.why == EndOfText)
      && (f.why == EndOfText ==> Nested(f.st) && Follow(v, START, ps, 0) == Some(OutlineOf(f.st))
                                 && |f.st.toks| == TokenCount(ps))
  {
    InitInv();
    FeedIsFollowed(v, cap, INIT, ps);
    FeedIsBooked(v, cap, INIT, ps);
    FeedKeepsNested(v, cap, INIT, ps);
  }

  /** A closing bracket at `n` that does not match what is open. */
  ghost predicate WrongCloseAhead(v: Variant, js: string, ps: seq<Piece>, n: nat)
    requires Follow(v, START, ps, 0).Some?
  {
    && n < |js| && (js[n] == '}' || js[n] == ']')
    && FollowPiece(v, Follow(v, START, ps, 0).value, CloseBracket(js[n] == '}'), n) == None
  }

  lemma HaltIsTold(v: Variant, js: string, cap: nat, st: State, why: Stop)
    requires Wf(st) && Nested(st) && NulFree(js) && st.pos < |js| && why != EndOfText
    ensures Apply(v, cap, st, LexemeAt(js, st.pos)) == Halt(why) <==>
      match why
      case NoMem => TokenAhead(js, st.pos) && |st.toks| >= cap
      case Inval => BadAhead(js, st.pos) || ((js[st.pos] == '}' || js[st.pos] == ']')
                      && FollowPiece(v, OutlineOf(st), CloseBracket(js[st.pos] == '}'), st.pos) == None)
      case Part => CutAhead(js, st.pos)
      case Stray => v == Links && js[st.pos] == ',' && st.toksuper == -1
      case EndOfText => false
  {
    AheadIsRead(js, st.pos);
    if js[st.pos] == '}' || js[st.pos] == ']' { CloseIsFollowed(v, st, TypeFor(js[st.pos] == '}')); }
  }

  /** What makes a call stop at `n` for this reason. */
  ghost predicate StopsAt(v: Variant, js: string, cap: nat, ps: seq<Piece>, n: nat, why: Stop) {
    IsReached(v, js, cap, ps, n) &&
    match why
    case EndOfText => n == |js|
    case NoMem => TokenAhead(js, n) && TokenCount(ps) == cap
    case Inval => BadAhead(js, n) || WrongCloseAhead(v, js, ps, n)
    case Part => CutAhead(js, n)
    case Stray => v == Links && n < |js| && js[n] == ',' && Unanswered(KeepAll(v, OpenLedger(v), ps))
  }

  lemma ReachedIsTold(v: Variant, js: string, cap: nat, ps: seq<Piece>, n: nat, why: Stop)
    requires NulFree(js) && IsReached(v, js, cap, ps, n)
    ensures var st := Feed(v, cap, INIT, ps).st;
      if n == |js| then StopsAt(v, js, cap, ps, n, why) <==> why == EndOfText
      else StopsAt(v, js, cap, ps, n, why) <==> why != EndOfText && Apply(v, cap, st, LexemeAt(js, n)) == Halt(why)
  {
    var st := Feed(v, cap, INIT, ps).st;
    InitInv();
    ReachedIsFed(v, js, cap, ps, n);
    RunAfterFeed(v, js, cap, INIT, ps, n);
    FeedIsBooked(v, cap, INIT, ps);
    SuperIsCredit(v, st);
    assert LedgerOf(v, INIT) == OpenLedger(v);
    if n < |js| && why != EndOfText { HaltIsTold(v, js, cap, st, why); }
  }

  lemma StopIsFound(v: Variant, js: string, cap: nat) returns (ps: seq<Piece>, n: nat)
    requires NulFree(js)
    ensures StopsAt(v, js, cap, ps, n, Run(v, js, cap, INIT).why)
  {
    var r := Run(v, js, cap, INIT);
    ps := RunReads(v, js, cap, INIT);
    n := r.st.pos;
    RunStops(v, js, cap, INIT);
    ReachedIsFed(v, js, cap, ps, n);
    ReachedIsTold(v, js, cap, ps, n, r.why);
  }

  lemma StopIsMet(v: Variant, js: string, cap: nat, ps: seq<Piece>, n: nat, why: Stop)
    requires NulFree(js) && StopsAt(v, js, cap, ps, n, why)
    ensures Run(v, js, cap, INIT) == Result(Feed(v, cap, INIT, ps).st, why)
  {
    ReachedIsFed(v, js, cap, ps, n);
    RunAfterFeed(v, js, cap, INIT, ps, n);
    ReachedIsTold(v, js, cap, ps, n, why);
    if n < |js| { RunStep(v, js, cap, Feed(v, cap, INIT, ps).st); }
  }

  /** From a fresh parser, in either build: a call stops for a reason exactly if the text and the room give it. */
  lemma StopsExactly(v: Variant, js: string, cap: nat, why: Stop)
    requires NulFree(js)
    ensures Run(v, js, cap, INIT).why == why <==> exists ps, n :: StopsAt(v, js, cap, ps, n, why)
  {
    var ps, n := StopIsFound(v, js, cap);
    if ps', n' :| StopsAt(v, js, cap, ps', n', why) { StopIsMet(v, js, cap, ps', n', why); }
  }

  /** All of the text is read, and brackets are left open. */
  ghost predicate EndsOpen(v: Variant, js: string, cap: nat, ps: seq<Piece>) {
    StopsAt(v, js, cap, ps, |js|, EndOfText) && Follow(v, START, ps, 0).value.open != []
  }

  lemma OpenIsTold(v: Variant, js: string, cap: nat)
    requires NulFree(js)
    ensures var r := Run(v, js, cap, INIT);
      r.why == EndOfText && LastOpen(r.st.toks) != -1 <==> exists ps :: EndsOpen(v, js, cap, ps)
  {
    var r := Run(v, js, cap, INIT);
    if r.why == EndOfText {
      var ps, n := StopIsFound(v, js, cap);
      OpenAtEnd(v, js, cap, ps);
    }
    if ps :| EndsOpen(v, js, cap, ps) { OpenAtEnd(v, js, cap, ps); }
  }

  lemma OpenAtEnd(v: Variant, js: string, cap: nat, ps: seq<Piece>)
    requires NulFree(js) && StopsAt(v, js, cap, ps, |js|, EndOfText)
    ensures Run(v, js, cap, INIT).why == EndOfText
    ensures EndsOpen(v, js, cap, ps) <==> LastOpen(Run(v, js, cap, INIT).st.toks) != -1
  {
    StopIsMet(v, js, cap, ps, |js|, EndOfText);
    ReachedIsFed(v, js, cap, ps, |js|);
    LastOpenIsTop(Run(v, js, cap, INIT).st.toks, 0);
  }

  /**
   * The codes of jsmn_parse on a fresh parser: -1 if a token finds no room, -2 at what can never be read and at a
   * bracket that does not match, -3 if a string is cut off or a bracket left open. Else it is the number of tokens.
   */
  lemma CodeExactly(v: Variant, js: string, cap: nat)
    requires NulFree(js) && Run(v, js, cap, INIT).why != Stray
    ensures var code := ReturnCode(INIT, Run(v, js, cap, INIT));
      && (code == -1 <==> exists ps, n :: StopsAt(v, js, cap, ps, n, NoMem))
      && (code == -2 <==> exists ps, n :: StopsAt(v, js, cap, ps, n, Inval))
      && (code == -3 <==> (exists ps, n :: StopsAt(v, js, cap, ps, n, Part)) || (exists ps :: EndsOpen(v, js, cap, ps)))
      && code >= -3
  {
    StopsExactly(v, js, cap, NoMem);
    StopsExactly(v, js, cap, Inval);
    StopsExactly(v, js, cap, Part);
    OpenIsTold(v, js, cap);
  }

  // ---------------------------------------------------------------- counting

  lemma {:induction false} CountReads(js: string, pos: nat, n: nat) returns (ps: seq<Piece>)
    requires pos <= |js|
    ensures var c := CountRun(js, pos, n);
      && SpellsPart(ps, js, pos, c.pos) && c.n == n + TokenCount(ps)
      && (if c.why == EndOfText then AtEnd(js, c.pos)
          else if c.why == Part then !AtEnd(js, c.pos) && LexemeAt(js, c.pos) == Cut
          else c.why == Inval && !AtEnd(js, c.pos) && LexemeAt(js, c.pos) == Bad)
    decreases |js| - pos
  {
    ps := [];
    if !AtEnd(js, pos) && LexemeAt(js, pos) != Bad && LexemeAt(js, pos) != Cut {
      var lex := LexemeAt(js, pos);
      var p := ReadPiece(js, pos);
      var rest := CountReads(js, After(pos, lex), if MakesToken(lex) then n + 1 else n);
      PieceBefore(p, rest, js, pos, After(pos, lex), CountRun(js, pos, n).pos);
      ps := [p] + rest;
      assert ps[1..] == rest;
    }
  }

  lemma CountPasses(js: string, pos: nat, n: nat, p: Piece)
    requires !AtEnd(js, pos) && LexemeAt(js, pos) == LexemeOf(p, pos)
    ensures CountRun(js, pos, n) == CountRun(js, After(pos, LexemeOf(p, pos)), if IsToken(p) then n + 1 else n)
  {
  }

  lemma {:induction false} CountAfter(js: string, pos: nat, n: nat, ps: seq<Piece>, to: nat)
    requires SpellsPart(ps, js, pos, to)
    ensures CountRun(js, pos, n) == CountRun(js, to, n + TokenCount(ps))
    decreases |ps|
  {
    if ps != [] {
      var next := FirstPieceIsRead(js, pos, to, ps);
      CountPasses(js, pos, n, ps[0]);
      CountAfter(js, next, if IsToken(ps[0]) then n + 1 else n, ps[1..], to);
    }
  }

  /** The text up to `n` can be read, and then comes this. */
  ghost predicate CountStopsAt(js: string, ps: seq<Piece>, n: nat, why: Stop) {
    SpellsPart(ps, js, 0, n) &&
    if why == EndOfText then n == |js| else if why == Part then CutAhead(js, n) else why == Inval && BadAhead(js, n)
  }

  lemma CountIsMet(js: string, ps: seq<Piece>, n: nat, why: Stop)
    requires NulFree(js) && CountStopsAt(js, ps, n, why)
    ensures CountRun(js, 0, 0) == Count(n, TokenCount(ps), why)
  {
    CountAfter(js, 0, 0, ps, n);
    if n < |js| { AheadIsRead(js, n); }
  }

  lemma CountIsFound(js: string) returns (ps: seq<Piece>, n: nat)
    requires NulFree(js)
    ensures CountStopsAt(js, ps, n, CountRun(js, 0, 0).why)
  {
    ps := CountReads(js, 0, 0);
    n := CountRun(js, 0, 0).pos;
    if n < |js| { AheadIsRead(js, n); }
  }

  /**
   * Without a token array: -2 at what can never be read, -3 if a string is cut off, and else the number of tokens of
   * the pieces, whatever the brackets.
   */
  lemma CountCodeExactly(js: string)
    requires NulFree(js)
    ensures var code := CountCode(CountRun(js, 0, 0));
      && (code == -2 <==> exists ps, n :: CountStopsAt(js, ps, n, Inval))
      && (code == -3 <==> exists ps, n :: CountStopsAt(js, ps, n, Part))
      && (code >= 0 <==> exists ps :: Spells(ps, js))
      && (forall ps :: Spells(ps, js) ==> code == TokenCount(ps))
  {
    var ps, n := CountIsFound(js);
    assert js[0..|js|] == js;
    if n == |js| { assert Spells(ps, js) <==> SpellsPart(ps, js, 0, n); }
    if ps', n' :| CountStopsAt(js, ps', n', Inval) { CountIsMet(js, ps', n', Inval); }
    if ps', n' :| CountStopsAt(js, ps', n', Part) { CountIsMet(js, ps', n', Part); }
    forall ps' | Spells(ps', js) ensures CountRun(js, 0, 0) == Count(|js|, TokenCount(ps'), EndOfText) {
      assert CountStopsAt(js, ps', |js|, EndOfText);
      CountIsMet(js, ps', |js|, EndOfText);
    }
  }

  // --------------------------------------------------------- a NUL in the text

  /** `k` is the place of the first NUL. */
  ghost predicate FirstNul(js: string, k: nat) { k < |js| && js[k] == '\0' && NulFree(js[..k]) }

  /** The body of a string up to a NUL ends in a backslash that quotes nothing. */
  ghost predicate Dangles(js: string, i: nat, k: nat) {
    i < k <= |js| && js[k - 1] == '\\' && IsBody(js[i..k - 1])
  }

  lemma {:induction false} HexBeforeNul(js: string, k: nat, i: nat, n: nat)
    requires FirstNul(js, k) && i <= k
    ensures HexEnd(js, i, n) == HexEnd(js[..k], i, n) <= k
    decreases n
  {
    if n > 0 && i < k { HexBeforeNul(js, k, i + 1, n - 1); }
  }

  lemma {:induction false} PrimitiveBeforeNul(js: string, k: nat, i: nat)
    requires FirstNul(js, k) && i <= k
    ensures PrimitiveEnd(js, i) == PrimitiveEnd(js[..k], i)
    decreases k - i
  {
    if i < k { PrimitiveBeforeNul(js, k, i + 1); }
  }

  lemma {:induction false} StringBeforeNul(js: string, k: nat, i: nat)
    requires FirstNul(js, k) && i <= k
    ensures var cut := StringLexeme(js[..k], i);
      if cut == Cut && Dangles(js, i, k) then StringLexeme(js, i) == Bad else StringLexeme(js, i) == cut
    decreases k - i
  {
    if i < k && js[i] != '\"' {
      if js[i] != '\\' {
        StringBeforeNul(js, k, i + 1);
        DanglesLater(js, i, k, 1);
      } else if i + 1 == k {
        assert js[i..k - 1] == "";
      } else if IsEscape(js[i + 1]) {
        StringBeforeNul(js, k, i + 2);
        DanglesLater(js, i, k, 2);
      } else if js[i + 1] == 'u' {
        HexBeforeNul(js, k, i + 2, 4);
        HexGoesOn(js, i, k);
      }
    }
  }

  lemma DanglesLater(js: string, i: nat, k: nat, n: nat)
    requires FirstNul(js, k) && i + n <= k && js[i] != '\"' && n == if js[i] == '\\' then 2 else 1
    requires n == 2 ==> IsEscape(js[i + 1])
    ensures Dangles(js, i, k) <==> Dangles(js, i + n, k)
  {
    if i + n < k {
      assert js[i..k - 1][n..] == js[i + n..k - 1] && js[i..k - 1][0] == js[i];
      if n == 2 { assert js[i..k - 1][1] == js[i + 1]; }
    } else if n == 2 {
      assert k - 1 == i + 1;
      assert js[i..k - 1] == ['\\'];
    }
  }

  lemma HexGoesOn(js: string, i: nat, k: nat)
    requires FirstNul(js, k) && i + 1 < k && js[i] == '\\' && js[i + 1] == 'u'
    requires HexEnd(js, i + 2, 4) == HexEnd(js[..k], i + 2, 4)
    ensures var cut := StringLexeme(js[..k], i);
      if cut == Cut && Dangles(js, i, k) then StringLexeme(js, i) == Bad else StringLexeme(js, i) == cut
    decreases k - i, 0
  {
    var cut := js[..k];
    var j := HexEnd(cut, i + 2, 4);
    if j != -1 {
      HexOfSome(cut, i + 2, 4);
      if i + 6 < k {
        StringBeforeNul(js, k, i + 6);
        HexDangles(js, i, k);
      } else {
        ShortHex(js, i, k);
      }
    }
  }

  lemma ShortHex(js: string, i: nat, k: nat)
    requires i + 1 < k <= i + 6 && k <= |js| && js[i] == '\\' && js[i + 1] == 'u'
    requires forall m :: i + 2 <= m < k ==> IsHex(js[m])
    ensures !Dangles(js, i, k)
  {
    var s := js[i..k - 1];
    assert |s| == k - 1 - i && s[0] == js[i] && (|s| > 1 ==> s[1] == js[i + 1]);
  }

  lemma HexDangles(js: string, i: nat, k: nat)
    requires i + 6 < k <= |js| && js[i] == '\\' && js[i + 1] == 'u' && forall m :: i + 2 <= m < i + 6 ==> IsHex(js[m])
    ensures Dangles(js, i, k) <==> Dangles(js, i + 6, k)
  {
    var s := js[i..k - 1];
    assert s[0] == js[i] && s[1] == js[i + 1] && s[6..] == js[i + 6..k - 1];
    forall m | 2 <= m < 6 ensures IsHex(s[m]) { assert s[m] == js[i + m]; }
  }

  lemma LexemeBeforeNul(js: string, k: nat, pos: nat)
    requires FirstNul(js, k) && pos < k
    ensures var cut := LexemeAt(js[..k], pos);
      if cut == Cut && Dangles(js, pos + 1, k) then LexemeAt(js, pos) == Bad else LexemeAt(js, pos) == cut
  {
    StringBeforeNul(js, k, pos + 1);
    PrimitiveBeforeNul(js, k, pos);
  }

  /** What becomes of the end that a call has on the text up to the NUL. */
  ghost function WithNul(js: string, k: nat, r: Result): Result {
    if r.why == Part && Dangles(js, r.st.pos + 1, k) then Result(r.st, Inval) else r
  }

  lemma HaltBeforeNul(v: Variant, js: string, k: nat, cap: nat, st: State, cut: Lexeme, lex: Lexeme, why: Stop)
    requires Wf(st) && Apply(v, cap, st, cut) == Halt(why)
    requires lex == if cut == Cut && Dangles(js, st.pos + 1, k) then Bad else cut
    ensures Apply(v, cap, st, lex) == Halt(WithNul(js, k, Result(st, why)).why)
  {
  }

  lemma PartIsCut(v: Variant, cap: nat, st: State, cut: Lexeme)
    requires Wf(st) && cut == Cut
    ensures Apply(v, cap, st, cut) == Halt(Part)
  {
  }

  /**
   * The text ends at its first NUL, whatever its length, with one exception: a string that is cut there behind a
   * backslash is taken for a bad one and not for one to be continued.
   */
  lemma {:induction false} NulIsTheEnd(v: Variant, js: string, k: nat, cap: nat, st: State)
    requires FirstNul(js, k) && Wf(st) && st.pos <= k
    ensures Run(v, js, cap, st) == WithNul(js, k, Run(v, js[..k], cap, st))
    decreases k - st.pos
  {
    if st.pos < k {
      var cut, lex := LexemeAt(js[..k], st.pos), LexemeAt(js, st.pos);
      LexemeBeforeNul(js, k, st.pos);
      RunStep(v, js, cap, st);
      RunStep(v, js[..k], cap, st);
      match Apply(v, cap, st, cut)
      case Halt(why) => HaltBeforeNul(v, js, k, cap, st, cut, lex, why);
      case Go(next) =>
        if cut == Cut { PartIsCut(v, cap, st, cut); }
        NulIsTheEnd(v, js, k, cap, next);
    }
  }
}
