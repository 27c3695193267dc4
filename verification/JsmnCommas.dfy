/**
 * A comma with no super token makes jsmn read in front of its token array. The
 * default build takes a type from there that it has no use for; the build with
 * parent links takes a super token. When this happens can be told from the
 * text: from its brackets, colons and commas at the top level.
 */
module JsmnCommas {
  import opened JsmnModel
  import opened JsmnInvariants
  import opened JsmnPieces
  import opened JsmnBrackets

  /** How many commas a super token answers before there is none: up to the first container above it, or the root. */
  datatype Credit = Endless | Commas(n: nat)

  function More(c: Credit): Credit {
    match c
    case Endless => Endless
    case Commas(n) => Commas(n + 1)
  }

  /**
   * The depth of brackets and the number of tokens, the credit of the super token at the top level, and that
   * of the last token, which a colon makes the super token.
   */
  datatype Ledger = Ledger(depth: nat, count: nat, credit: Credit, last: Credit)

  function OpenLedger(v: Variant): Ledger { Ledger(0, 0, Commas(0), if v == Scan then Endless else Commas(0)) }

  /** A comma that finds no super token, at the top level. */
  predicate Unanswered(l: Ledger) { l.depth == 0 && l.credit == Commas(0) }

  /** One piece; brackets that close nothing are passed over. */
  function Keep(v: Variant, l: Ledger, p: Piece): Ledger {
    match p
    case OpenBracket(_) => Ledger(l.depth + 1, l.count + 1, if v == Scan then Endless else l.credit, Endless)
    case CloseBracket(_) =>
      if l.depth == 0 then l
      else l.(depth := l.depth - 1, credit := if v == Scan && l.depth == 1 then Commas(0) else l.credit)
    case Text(_) => KeepScalar(v, l)
    case Word(_) => KeepScalar(v, l)
    case ColonSign =>
      if l.depth > 0 then l
      else l.(credit := if l.count == 0 then Commas(0) else l.last)
    case CommaSign =>
      if v == Links && l.depth == 0 && l.credit.Commas? && l.credit.n > 0
      then l.(credit := Commas(l.credit.n - 1)) else l
    case Space(_) => l
  }

  function KeepScalar(v: Variant, l: Ledger): Ledger {
    l.(count := l.count + 1, last := if v == Links && l.depth == 0 then More(l.credit) else Endless)
  }

  function KeepAll(v: Variant, l: Ledger, ps: seq<Piece>): Ledger
    decreases |ps|
  {
    if ps == [] then l else KeepAll(v, Keep(v, l, ps[0]), ps[1..])
  }

  /** No comma of the pieces goes unanswered. */
  predicate AllAnswered(v: Variant, l: Ledger, ps: seq<Piece>)
    decreases |ps|
  {
    ps == [] || (!(ps[0].CommaSign? && Unanswered(l)) && AllAnswered(v, Keep(v, l, ps[0]), ps[1..]))
  }

  // --------------------------------------------------------- the books of a state

  ghost function Depth(toks: seq<Token>): nat {
    if toks == [] then 0 else Depth(toks[..|toks| - 1]) + (if IsOpen(toks[|toks| - 1]) then 1 else 0)
  }

  /** The outermost open token, or -1. */
  ghost function FirstOpen(toks: seq<Token>): (i: int)
    ensures -1 <= i < |toks| && (i >= 0 ==> IsOpen(toks[i])) && forall k :: 0 <= k < i ==> !IsOpen(toks[k])
    ensures i == -1 ==> forall k :: 0 <= k < |toks| ==> !IsOpen(toks[k])
  {
    if toks == [] then -1
    else
      var n := |toks| - 1;
      var i := FirstOpen(toks[..n]);
      if i == -1 && IsOpen(toks[n]) then n else i
  }

  /** The credit of token `k`: one comma for each token on its chain of parents before a container. */
  ghost function CreditOf(toks: seq<Token>, k: int): (c: Credit)
    requires WfToks(toks) && -1 <= k < |toks|
    ensures c == Commas(0) <==> k == -1
  {
    if k == -1 then Commas(0)
    else if IsContainer(toks[k].typ) then Endless
    else More(CreditOf(toks, toks[k].parent))
  }

  /** The super token there will be when all open brackets are closed. */
  ghost function TopSuper(st: State): (k: int)
    requires Wf(st)
    ensures -1 <= k < |st.toks|
  {
    var x := FirstOpen(st.toks);
    if x == -1 then st.toksuper else st.toks[x].parent
  }

  ghost function TopCredit(st: State): Credit
    requires Wf(st)
  {
    CreditOf(st.toks, TopSuper(st))
  }

  ghost function LastCredit(st: State): Credit
    requires Wf(st)
  {
    CreditOf(st.toks, |st.toks| - 1)
  }

  ghost function LedgerOf(v: Variant, st: State): Ledger
    requires Wf(st)
  {
    Ledger(Depth(st.toks), |st.toks|,
           if v == Links then TopCredit(st) else if st.toksuper == -1 then Commas(0) else Endless,
           if v == Links then LastCredit(st) else Endless)
  }

  // ----------------------------------------------------------------- bookkeeping

  /** Equal in what the ledger looks at, but for the ends of tokens. */
  ghost predicate SameChains(a: seq<Token>, b: seq<Token>) {
    |a| <= |b| && forall k :: 0 <= k < |a| ==> a[k].typ == b[k].typ && a[k].parent == b[k].parent
  }

  lemma {:induction false} SameCredit(a: seq<Token>, b: seq<Token>, k: int)
    requires WfToks(a) && WfToks(b) && SameChains(a, b) && -1 <= k < |a|
    ensures CreditOf(a, k) == CreditOf(b, k)
    decreases k
  {
    if k >= 0 && !IsContainer(a[k].typ) { SameCredit(a, b, a[k].parent); }
  }

  /** A chain that leads to an open token leads to a container. */
  lemma {:induction false} InsideIsEndless(toks: seq<Token>, k: int)
    requires WfToks(toks) && -1 <= k < |toks| && OpenAncestor(toks, k) != -1
    ensures CreditOf(toks, k) == Endless
    decreases k
  {
    if !IsOpen(toks[k]) { InsideIsEndless(toks, toks[k].parent); }
  }

  lemma {:induction false} SameDepth(a: seq<Token>, b: seq<Token>)
    requires |a| == |b| && forall k :: 0 <= k < |a| ==> IsOpen(a[k]) == IsOpen(b[k])
    ensures Depth(a) == Depth(b) && FirstOpen(a) == FirstOpen(b)
    decreases |a|
  {
    if a != [] { SameDepth(a[..|a| - 1], b[..|b| - 1]); }
  }

  lemma {:induction false} DepthOfOpen(toks: seq<Token>)
    ensures Depth(toks) == 0 <==> LastOpen(toks) == -1
    ensures LastOpen(toks) == -1 <==> FirstOpen(toks) == -1
    decreases |toks|
  {
    if toks != [] { DepthOfOpen(toks[..|toks| - 1]); }
  }

  /** Closing the last open token: the first one stays unless it is the same. */
  lemma {:induction false} DepthAfterClose(toks: seq<Token>, end: nat)
    requires LastOpen(toks) != -1
    ensures var x, closed := LastOpen(toks), CloseToken(toks, LastOpen(toks), end);
      && Depth(closed) == Depth(toks) - 1
      && FirstOpen(closed) == (if FirstOpen(toks) == x then -1 else FirstOpen(toks))
      && (Depth(toks) == 1 <==> FirstOpen(toks) == x)
    decreases |toks|
  {
    var n, x := |toks| - 1, LastOpen(toks);
    var closed := CloseToken(toks, x, end);
    DepthOfOpen(toks[..n]);
    if x == n {
      assert closed[..n] == toks[..n];
    } else {
      assert LastOpen(toks[..n]) == x;
      assert closed[..n] == CloseToken(toks[..n], x, end);
      DepthAfterClose(toks[..n], end);
    }
  }

  // ------------------------------------------------------- the parser keeps them

  /** A token is allocated. */
  ghost predicate TokenAdded(st: State, p: Piece, next: State)
    requires Wf(st)
  {
    && IsToken(p) && Wf(next) && next.toks == Allocate(st, LexemeOf(p, st.pos))
    && next.toksuper == if p.OpenBracket? then |st.toks| else st.toksuper
  }

  lemma AddedChains(st: State, p: Piece, next: State)
    requires Wf(st) && TokenAdded(st, p, next)
    ensures SameChains(st.toks, next.toks) && |next.toks| == |st.toks| + 1
    ensures var last := next.toks[|st.toks|];
      last.parent == st.toksuper && IsOpen(last) == p.OpenBracket? && IsContainer(last.typ) == p.OpenBracket?
    ensures forall k :: 0 <= k < |st.toks| ==> IsOpen(next.toks[..|st.toks|][k]) == IsOpen(st.toks[k])
  {
  }

  lemma AddedTop(st: State, p: Piece, next: State)
    requires Wf(st) && TokenAdded(st, p, next)
    ensures Depth(next.toks) == Depth(st.toks) + (if p.OpenBracket? then 1 else 0) && TopSuper(next) == TopSuper(st)
  {
    AddedChains(st, p, next);
    SameDepth(next.toks[..|st.toks|], st.toks);
  }

  lemma AddedLast(st: State, p: Piece, next: State)
    requires Wf(st) && Nested(st) && TokenAdded(st, p, next)
    ensures LastCredit(next) == if p.OpenBracket? || Depth(st.toks) > 0 then Endless else More(TopCredit(st))
  {
    AddedChains(st, p, next);
    SameCredit(st.toks, next.toks, st.toksuper);
    DepthOfOpen(st.toks);
    if LastOpen(st.toks) != -1 { InsideIsEndless(st.toks, st.toksuper); }
  }

  lemma TokenKeeps(v: Variant, st: State, p: Piece, next: State)
    requires Wf(st) && Nested(st) && TokenAdded(st, p, next)
    ensures LedgerOf(v, next) == Keep(v, LedgerOf(v, st), p)
  {
    AddedChains(st, p, next);
    AddedTop(st, p, next);
    AddedLast(st, p, next);
    SameCredit(st.toks, next.toks, TopSuper(st));
  }

  /** The innermost bracket is closed. */
  ghost predicate BracketClosed(v: Variant, st: State, next: State)
    requires Wf(st)
  {
    && LastOpen(st.toks) != -1 && Wf(next) && next.toks == CloseToken(st.toks, LastOpen(st.toks), next.pos)
    && next.toksuper == if v == Scan then LastOpen(next.toks) else st.toks[LastOpen(st.toks)].parent
  }

  lemma ClosedTop(st: State, next: State)
    requires Wf(st) && BracketClosed(Links, st, next)
    ensures TopSuper(next) == TopSuper(st)
  {
    DepthAfterClose(st.toks, next.pos);
    DepthOfOpen(st.toks);
  }

  lemma ClosedCredits(st: State, next: State)
    requires Wf(st) && BracketClosed(Links, st, next)
    ensures TopCredit(next) == TopCredit(st) && LastCredit(next) == LastCredit(st)
  {
    ClosedDepth(Links, st, next);
    ClosedTop(st, next);
    SameCredit(st.toks, next.toks, TopSuper(st));
    SameCredit(st.toks, next.toks, |st.toks| - 1);
  }

  lemma ClosedDepth(v: Variant, st: State, next: State)
    requires Wf(st) && BracketClosed(v, st, next)
    ensures Depth(next.toks) == Depth(st.toks) - 1 && SameChains(st.toks, next.toks) && |next.toks| == |st.toks|
    ensures v == Scan ==> (next.toksuper == -1 <==> Depth(st.toks) == 1)
  {
    DepthAfterClose(st.toks, next.pos);
    DepthOfOpen(next.toks);
  }

  lemma CloseKeeps(v: Variant, st: State, next: State, curly: bool)
    requires Wf(st) && Nested(st) && BracketClosed(v, st, next)
    ensures LedgerOf(v, next) == Keep(v, LedgerOf(v, st), CloseBracket(curly))
  {
    ClosedDepth(v, st, next);
    if v == Links { ClosedCredits(st, next); }
  }

  lemma ColonKeeps(v: Variant, st: State, next: State)
    requires Wf(st) && Nested(st) && next == State(st.pos + 1, |st.toks| - 1, st.toks)
    ensures LedgerOf(v, next) == Keep(v, LedgerOf(v, st), ColonSign)
  {
    DepthOfOpen(st.toks);
  }

  lemma CommaKeeps(v: Variant, st: State, next: State)
    requires Wf(st) && Nested(st) && (v == Links ==> st.toksuper != -1)
    requires Wf(next) && next.toks == st.toks && next.toksuper == SuperAfterComma(v, st)
    ensures LedgerOf(v, next) == Keep(v, LedgerOf(v, st), CommaSign)
  {
    DepthOfOpen(st.toks);
  }

  /** A state without a super token is one whose ledger leaves a comma unanswered. */
  lemma SuperIsCredit(v: Variant, st: State)
    requires Wf(st) && Nested(st)
    ensures st.toksuper == -1 <==> Unanswered(LedgerOf(v, st))
  {
    DepthOfOpen(st.toks);
  }

  lemma PieceKeeps(v: Variant, cap: nat, st: State, p: Piece)
    requires Wf(st) && Nested(st)
    ensures match Apply(v, cap, st, LexemeOf(p, st.pos))
      case Go(next) => Wf(next) && LedgerOf(v, next) == Keep(v, LedgerOf(v, st), p)
      case Halt(why) => why == Stray ==> v == Links && p.CommaSign? && Unanswered(LedgerOf(v, st))
    ensures v == Links && p.CommaSign? && Unanswered(LedgerOf(v, st))
            ==> Apply(v, cap, st, LexemeOf(p, st.pos)) == Halt(Stray)
  {
    if p.CloseBracket? { CloseOrSurplusKeeps(v, cap, st, p.curly); }
    else if IsToken(p) { AddingKeeps(v, cap, st, p); }
    else { SignKeeps(v, cap, st, p); }
  }

  lemma AddingKeeps(v: Variant, cap: nat, st: State, p: Piece)
    requires Wf(st) && Nested(st) && IsToken(p)
    ensures match Apply(v, cap, st, LexemeOf(p, st.pos))
      case Go(next) => Wf(next) && LedgerOf(v, next) == Keep(v, LedgerOf(v, st), p)
      case Halt(why) => why != Stray
  {
    ApplyKeepsWf(v, cap, st, LexemeOf(p, st.pos));
    var a := Apply(v, cap, st, LexemeOf(p, st.pos));
    if a.Go? { TokenKeeps(v, st, p, a.st); }
  }

  lemma SignKeeps(v: Variant, cap: nat, st: State, p: Piece)
    requires Wf(st) && Nested(st) && (p.ColonSign? || p.CommaSign? || p.Space?)
    ensures match Apply(v, cap, st, LexemeOf(p, st.pos))
      case Go(next) => Wf(next) && LedgerOf(v, next) == Keep(v, LedgerOf(v, st), p)
      case Halt(why) => why == Stray && v == Links && p.CommaSign? && Unanswered(LedgerOf(v, st))
    ensures v == Links && p.CommaSign? && Unanswered(LedgerOf(v, st)) ==> Apply(v, cap, st, LexemeOf(p, st.pos)).Halt?
  {
    ApplyKeepsWf(v, cap, st, LexemeOf(p, st.pos));
    SuperIsCredit(v, st);
    var a := Apply(v, cap, st, LexemeOf(p, st.pos));
    if p.ColonSign? { ColonKeeps(v, st, a.st); }
    else if p.CommaSign? && a.Go? { CommaKeeps(v, st, a.st); }
  }

  lemma CloseOrSurplusKeeps(v: Variant, cap: nat, st: State, curly: bool)
    requires Wf(st) && Nested(st)
    ensures match Apply(v, cap, st, LexemeOf(CloseBracket(curly), st.pos))
      case Go(next) => Wf(next) && LedgerOf(v, next) == Keep(v, LedgerOf(v, st), CloseBracket(curly))
      case Halt(why) => why != Stray
  {
    var lex := LexemeOf(CloseBracket(curly), st.pos);
    ApplyKeepsNested(v, cap, st, lex);
    DepthOfOpen(st.toks);
    var a := Apply(v, cap, st, lex);
    if a.Go? && LastOpen(st.toks) != -1 { CloseKeeps(v, st, a.st, curly); }
  }

  /** What the ledger says of feeding pieces that ends as `r`. */
  ghost predicate Booked(v: Variant, l: Ledger, ps: seq<Piece>, r: Result)
    requires Wf(r.st)
  {
    && (r.why == EndOfText ==> LedgerOf(v, r.st) == KeepAll(v, l, ps) && (v == Links ==> AllAnswered(v, l, ps)))
    && (r.why == Stray ==> v == Links && !AllAnswered(v, l, ps))
  }

  lemma {:induction false} FeedIsBooked(v: Variant, cap: nat, st: State, ps: seq<Piece>)
    requires Wf(st) && Nested(st)
    ensures Booked(v, LedgerOf(v, st), ps, Feed(v, cap, st, ps))
    decreases |ps|
  {
    if ps != [] {
      var lex := LexemeOf(ps[0], st.pos);
      PieceKeeps(v, cap, st, ps[0]);
      ApplyKeepsNested(v, cap, st, lex);
      match Apply(v, cap, st, lex)
      case Halt(_) =>
      case Go(next) =>
        FeedUnfolds(v, cap, st, ps, next);
        FeedIsBooked(v, cap, next, ps[1..]);
    }
  }

  // ------------------------------------------- commas that find no super token

  /** The loop comes to a comma when there is no super token. */
  ghost predicate MeetsBareComma(v: Variant, js: string, cap: nat, st: State)
    requires Wf(st)
    decreases |js| - st.pos
  {
    !AtEnd(js, st.pos)
    && var lex := LexemeAt(js, st.pos);
       (lex.Comma? && st.toksuper == -1)
       || (RunStep(v, js, cap, st); var a := Apply(v, cap, st, lex); a.Go? && MeetsBareComma(v, js, cap, a.st))
  }

  /** In the build with parent links that is where a call has no defined end. */
  lemma {:induction false} StrayIsBareComma(js: string, cap: nat, st: State)
    requires Wf(st)
    ensures Run(Links, js, cap, st).why == Stray <==> MeetsBareComma(Links, js, cap, st)
    decreases |js| - st.pos
  {
    if !AtEnd(js, st.pos) {
      RunStep(Links, js, cap, st);
      var a := Apply(Links, cap, st, LexemeAt(js, st.pos));
      if a.Go? { StrayIsBareComma(js, cap, a.st); }
    }
  }

  /**
   * The pieces before a comma at `n` say that there is no super token: the brackets are in order and closed, there is
   * room, and the commas before have used up what the last colon at the top level gave.
   */
  ghost predicate BareComma(v: Variant, js: string, cap: nat, ps: seq<Piece>, n: nat) {
    && SpellsPart(ps, js, 0, n) && n < |js| && js[n] == ','
    && Follow(v, START, ps, 0).Some? && TokenCount(ps) <= cap
    && (v == Links ==> AllAnswered(v, OpenLedger(v), ps)) && Unanswered(KeepAll(v, OpenLedger(v), ps))
  }

  lemma {:induction false} BareCommaIsRead(v: Variant, js: string, cap: nat, st: State)
    returns (ps: seq<Piece>, at: State)
    requires Wf(st) && Nested(st) && MeetsBareComma(v, js, cap, st)
    ensures Wf(at) && Nested(at) && !AtEnd(js, at.pos) && js[at.pos] == ',' && at.toksuper == -1
    ensures SpellsPart(ps, js, st.pos, at.pos) && Feed(v, cap, st, ps) == Result(at, EndOfText)
    decreases |js| - st.pos
  {
    var lex := LexemeAt(js, st.pos);
    if lex.Comma? && st.toksuper == -1 {
      ps, at := [], st;
    } else {
      RunStep(v, js, cap, st);
      ApplyKeepsNested(v, cap, st, lex);
      var next := Apply(v, cap, st, lex).st;
      var p := ReadPiece(js, st.pos);
      var rest;
      rest, at := BareCommaIsRead(v, js, cap, next);
      PieceBefore(p, rest, js, st.pos, next.pos, at.pos);
      ps := [p] + rest;
      assert ps[1..] == rest;
      FeedUnfolds(v, cap, st, ps, next);
    }
  }

  lemma {:induction false} BareCommaIsMet(v: Variant, js: string, cap: nat, st: State, ps: seq<Piece>, n: nat)
    requires Wf(st) && SpellsPart(ps, js, st.pos, n) && n < |js| && js[n] == ','
    requires var f := Feed(v, cap, st, ps); f.why == EndOfText && f.st.toksuper == -1
    ensures MeetsBareComma(v, js, cap, st)
    decreases |ps|
  {
    if ps != [] {
      var next := FirstPieceIsRead(js, st.pos, n, ps);
      RunStep(v, js, cap, st);
      var after := Apply(v, cap, st, LexemeOf(ps[0], st.pos)).st;
      FeedUnfolds(v, cap, st, ps, after);
      BareCommaIsMet(v, js, cap, after, ps[1..], n);
    }
  }

  /** From a fresh parser a comma without a super token is met exactly where the text before it says so. */
  lemma BareCommaExactly(v: Variant, js: string, cap: nat)
    ensures MeetsBareComma(v, js, cap, INIT) <==> exists ps, n :: BareComma(v, js, cap, ps, n)
  {
    InitInv();
    assert LedgerOf(v, INIT) == OpenLedger(v) && OutlineOf(INIT) == START;
    if MeetsBareComma(v, js, cap, INIT) {
      var ps, at := BareCommaIsRead(v, js, cap, INIT);
      FeedIsBooked(v, cap, INIT, ps);
      FeedIsFollowed(v, cap, INIT, ps);
      SuperIsCredit(v, at);
      assert BareComma(v, js, cap, ps, at.pos);
    }
    if ps, n :| BareComma(v, js, cap, ps, n) {
      FeedIsBooked(v, cap, INIT, ps);
      FeedIsFollowed(v, cap, INIT, ps);
      FeedKeepsNested(v, cap, INIT, ps);
      SuperIsCredit(v, Feed(v, cap, INIT, ps).st);
      BareCommaIsMet(v, js, cap, INIT, ps, n);
    }
  }

  /** So a call of the build with parent links has a defined end exactly if no text before a comma says so. */
  lemma DefinedExactly(js: string, cap: nat)
    ensures Run(Links, js, cap, INIT).why != Stray <==> !exists ps, n :: BareComma(Links, js, cap, ps, n)
  {
    StrayIsBareComma(js, cap, INIT);
    BareCommaExactly(Links, js, cap);
  }
}
