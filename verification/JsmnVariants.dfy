/**
 * The two builds, scanning back over the tokens and following parent links, find
 * tokens of the same types and spans in every text, up to the first bracket that
 * closes nothing or comma that finds no super token. JsmnSizes compares the sizes.
 */
module JsmnVariants {
  import opened JsmnModel
  import opened JsmnInvariants
  import opened JsmnPieces
  import opened JsmnBrackets
  import opened JsmnCommas

  /** Equal in type and span. */
  ghost predicate SameSpans(a: seq<Token>, b: seq<Token>) {
    |a| == |b| && forall k :: 0 <= k < |a| ==> a[k].typ == b[k].typ && a[k].start == b[k].start && a[k].end == b[k].end
  }

  ghost predicate Matches(a: State, b: State) {
    a.pos == b.pos && SameSpans(a.toks, b.toks)
  }

  /** The call stopped at a bracket that closes nothing. */
  predicate AtUnmatchedClose(js: string, r: Result) {
    r.why == Inval && !AtEnd(js, r.st.pos) && LexemeAt(js, r.st.pos).Close? && LastOpen(r.st.toks) == -1
  }

  lemma StepsMatch(a: State, b: State, lex: Lexeme, a': State, b': State)
    requires Wf(a) && Wf(b) && Matches(a, b)
    requires Stepped(Scan, a, lex, a') && Stepped(Links, b, lex, b')
    ensures Matches(a', b')
  {
    SameOpen(a.toks, b.toks);
  }

  /** One lexeme: both builds step or both halt, except at a bracket that closes nothing. */
  lemma ApplyMatches(cap: nat, a: State, b: State, lex: Lexeme)
    requires Wf(a) && Wf(b) && Nested(a) && Nested(b) && Matches(a, b)
    ensures var x, y := Apply(Scan, cap, a, lex), Apply(Links, cap, b, lex);
      if lex.Close? && LastOpen(a.toks) == -1
      then x == Halt(Inval) && (if a.toks == [] then y == Halt(Inval) else y == Go(b.(pos := b.pos + 1)))
      else if lex.Comma? && b.toksuper == -1 then x.Go? && y == Halt(Stray)
      else x.Go? == y.Go? && (x.Halt? ==> x == y)
  {
    SameOpen(a.toks, b.toks);
  }

  /**
   * Call by call, as long as the one with parent links has a defined end: the same spans, or the
   * default build stops at a bracket that closes nothing and the other one goes on.
   */
  lemma {:induction false} RunsMatch(js: string, cap: nat, a: State, b: State)
    requires Wf(a) && Wf(b) && Nested(a) && Nested(b) && Matches(a, b)
    ensures var x, y := Run(Scan, js, cap, a), Run(Links, js, cap, b);
      if AtUnmatchedClose(js, x) && x.st.toks != [] then y.why == Stray || x.st.pos < y.st.pos
      else y.why == Stray || (x.why == y.why && Matches(x.st, y.st))
    decreases |js| - a.pos
  {
    if !AtEnd(js, a.pos) {
      var lex := LexemeAt(js, a.pos);
      RunStep(Scan, js, cap, a);
      RunStep(Links, js, cap, b);
      ApplyMatches(cap, a, b, lex);
      var x, y := Apply(Scan, cap, a, lex), Apply(Links, cap, b, lex);
      if x.Go? && y.Go? {
        ApplyKeepsNested(Scan, cap, a, lex);
        ApplyKeepsNested(Links, cap, b, lex);
        StepsMatch(a, b, lex, x.st, y.st);
        RunsMatch(js, cap, x.st, y.st);
      } else if y.Go? {
        RunAdvances(Links, js, cap, y.st);
      }
    }
  }

  lemma {:induction false} RunAdvances(v: Variant, js: string, cap: nat, st: State)
    requires Wf(st)
    ensures st.pos <= Run(v, js, cap, st).st.pos
    decreases |js| - st.pos
  {
    if !AtEnd(js, st.pos) {
      RunStep(v, js, cap, st);
      var a := Apply(v, cap, st, LexemeAt(js, st.pos));
      if a.Go? { RunAdvances(v, js, cap, a.st); }
    }
  }

  /** The build with parent links has a defined end, and both end with the same code, position, types and spans. */
  ghost predicate SameEnd(js: string, cap: nat) {
    var x, y := Run(Scan, js, cap, INIT), Run(Links, js, cap, INIT);
    y.why != Stray && ReturnCode(INIT, x) == ReturnCode(INIT, y) && Matches(x.st, y.st)
  }

  lemma SameEndBy(js: string, cap: nat)
    ensures var x, y := Run(Scan, js, cap, INIT), Run(Links, js, cap, INIT);
      SameEnd(js, cap) <==> y.why != Stray && !(AtUnmatchedClose(js, x) && x.st.toks != [])
  {
    RunsMatch(js, cap, INIT, INIT);
    var x, y := Run(Scan, js, cap, INIT), Run(Links, js, cap, INIT);
    if Matches(x.st, y.st) { SameOpen(x.st.toks, y.st.toks); }
  }

  // ------------------------------------------------------- the same from the text

  /** Before a closing bracket at `n` there are tokens, and room for them, and no bracket is open. */
  ghost predicate ClosesNothing(js: string, cap: nat, ps: seq<Piece>, n: nat) {
    && SpellsPart(ps, js, 0, n) && n < |js| && (js[n] == '}' || js[n] == ']')
    && Balanced(BracketsOf(ps)) && 0 < TokenCount(ps) <= cap
  }

  /** From a fresh parser, in the default build: what the outline of pieces that were fed is. */
  lemma FedOutline(js: string, cap: nat, ps: seq<Piece>, n: nat)
    requires SpellsPart(ps, js, 0, n)
    ensures var f := Feed(Scan, cap, INIT, ps);
      && (f.why == EndOfText && LastOpen(f.st.toks) == -1 ==>
            Balanced(BracketsOf(ps)) && |f.st.toks| == TokenCount(ps) && (TokenCount(ps) > 0 ==> TokenCount(ps) <= cap))
      && (Balanced(BracketsOf(ps)) && TokenCount(ps) <= cap ==>
            f.why == EndOfText && LastOpen(f.st.toks) == -1 && |f.st.toks| == TokenCount(ps))
  {
    InitInv();
    var f := Feed(Scan, cap, INIT, ps);
    FeedIsFollowed(Scan, cap, INIT, ps);
    FollowIsMachine(Scan, START, ps, 0);
    BalancedIffMachineAccepts(BracketsOf(ps));
    LastOpenIsTop(f.st.toks, 0);
    FeedNeverStrays(cap, INIT, ps);
    TypesOfLength(OpenMarks(f.st.toks));
  }

  lemma {:induction false} FeedNeverStrays(cap: nat, st: State, ps: seq<Piece>)
    requires Wf(st)
    ensures Feed(Scan, cap, st, ps).why != Stray
    decreases |ps|
  {
    if ps != [] {
      var lex := LexemeOf(ps[0], st.pos);
      ApplyKeepsWf(Scan, cap, st, lex);
      match Apply(Scan, cap, st, lex)
      case Go(next) => FeedNeverStrays(cap, next, ps[1..]);
      case Halt(_) =>
    }
  }

  lemma UnmatchedIsRead(js: string, cap: nat, x: Result) returns (ps: seq<Piece>)
    requires x == Run(Scan, js, cap, INIT) && AtUnmatchedClose(js, x) && x.st.toks != []
    ensures ClosesNothing(js, cap, ps, x.st.pos)
  {
    ps := RunReads(Scan, js, cap, INIT);
    FedOutline(js, cap, ps, x.st.pos);
  }

  lemma BracketStops(js: string, cap: nat, st: State)
    requires Wf(st) && LastOpen(st.toks) == -1 && !AtEnd(js, st.pos) && (js[st.pos] == '}' || js[st.pos] == ']')
    ensures Run(Scan, js, cap, st) == Result(st, Inval) && AtUnmatchedClose(js, Result(st, Inval))
  {
    RunStep(Scan, js, cap, st);
  }

  lemma UnmatchedIsMet(js: string, cap: nat, ps: seq<Piece>, n: nat)
    requires ClosesNothing(js, cap, ps, n)
    ensures var x := Run(Scan, js, cap, INIT); AtUnmatchedClose(js, x) && x.st.toks != []
  {
    var st := Feed(Scan, cap, INIT, ps).st;
    FedOutline(js, cap, ps, n);
    RunAfterFeed(Scan, js, cap, INIT, ps, n);
    BracketStops(js, cap, st);
  }

  lemma ClosesNothingExactly(js: string, cap: nat)
    ensures var x := Run(Scan, js, cap, INIT);
      AtUnmatchedClose(js, x) && x.st.toks != [] <==> exists ps, n :: ClosesNothing(js, cap, ps, n)
  {
    var x := Run(Scan, js, cap, INIT);
    if AtUnmatchedClose(js, x) && x.st.toks != [] { var ps := UnmatchedIsRead(js, cap, x); }
    if ps, n :| ClosesNothing(js, cap, ps, n) { UnmatchedIsMet(js, cap, ps, n); }
  }

  /**
   * On every text and with any room, both builds end with the same code, position, types and spans if and
   * only if the text has no bracket that closes nothing after a token, and no comma that finds no super token.
   */
  lemma SpansAgreeExactly(js: string, cap: nat)
    ensures SameEnd(js, cap) <==>
            !(exists ps, n :: ClosesNothing(js, cap, ps, n)) && !(exists ps, n :: BareComma(Links, js, cap, ps, n))
  {
    SameEndBy(js, cap);
    ClosesNothingExactly(js, cap);
    DefinedExactly(js, cap);
  }

  // ---------------------------------------------------------------- super tokens

  /** After a closing bracket the builds have the same super token exactly if the bracket's parent is open or none. */
  lemma SupersAfterClose(st: State, typ: TokenType)
    requires Wf(st) && Nested(st) && ApplyClose(Scan, st, typ).Go? && LastOpen(st.toks) != -1
    ensures ApplyClose(Links, st, typ).Go?
    ensures var p := st.toks[LastOpen(st.toks)].parent;
      ApplyClose(Scan, st, typ).st.toksuper == ApplyClose(Links, st, typ).st.toksuper <==> p == -1 || IsOpen(st.toks[p])
  {
    assert LinkedOut(st.toks, LastOpen(st.toks));
    OpenAfterClose(st.toks, st.pos + 1);
  }
}
