/**
 * The two builds of jsmn count a token in the super token they have. After a
 * closing bracket and after a comma they may have different ones, and a token
 * that comes then leaves sizes that never meet again. Whether one comes can be
 * told from the text.
 */
module JsmnSizes {
  import opened JsmnModel
  import opened JsmnInvariants
  import opened JsmnPieces
  import opened JsmnBrackets
  import opened JsmnCommas
  import opened JsmnVariants

  /** Equal in position, and in type, span and size of every token. */
  ghost predicate Alike(a: State, b: State) {
    Matches(a, b) && forall k :: 0 <= k < |a.toks| ==> a.toks[k].size == b.toks[k].size
  }

  // ------------------------------------------------------ sizes that stay behind

  /** The default build will not count in token `k` any more. */
  ghost predicate ScanIsDone(st: State, k: int) {
    0 <= k < |st.toks| - 1 && !IsOpen(st.toks[k]) && st.toksuper != k
  }

  ghost predicate OnChain(toks: seq<Token>, j: int, k: int)
    requires WfToks(toks) && -1 <= j < |toks|
    decreases j
  {
    j != -1 && (j == k || OnChain(toks, toks[j].parent, k))
  }

  /** Neither will the build with parent links: it only goes from the super token or the last one to their parents. */
  ghost predicate LinksIsDone(st: State, k: int)
    requires Wf(st)
  {
    0 <= k < |st.toks| && !OnChain(st.toks, st.toksuper, k) && !OnChain(st.toks, |st.toks| - 1, k)
  }

  ghost predicate IsDone(v: Variant, st: State, k: int)
    requires Wf(st)
  {
    if v == Scan then ScanIsDone(st, k) else LinksIsDone(st, k)
  }

  lemma {:induction false} SameChain(a: seq<Token>, b: seq<Token>, j: int, k: int)
    requires WfToks(a) && WfToks(b) && -1 <= j < |a| <= |b| && forall i :: 0 <= i < |a| ==> a[i].parent == b[i].parent
    ensures OnChain(a, j, k) == OnChain(b, j, k)
    decreases j
  {
    if j != -1 { SameChain(a, b, a[j].parent, k); }
  }

  /** The nearest open token lies on the chain, and so does what lies on its own chain. */
  lemma {:induction false} ThroughAncestor(toks: seq<Token>, j: int, k: int)
    requires WfToks(toks) && -1 <= j < |toks| && OnChain(toks, OpenAncestor(toks, j), k)
    ensures OnChain(toks, j, k)
    decreases j
  {
    if j != -1 && !IsOpen(toks[j]) { ThroughAncestor(toks, toks[j].parent, k); }
  }

  lemma ScanStaysDone(st: State, lex: Lexeme, next: State, k: int)
    requires Wf(st) && Wf(next) && ScanIsDone(st, k) && Stepped(Scan, st, lex, next)
    ensures ScanIsDone(next, k) && next.toks[k].size == st.toks[k].size
  {
  }

  lemma LinksStaysDone(st: State, lex: Lexeme, next: State, k: int)
    requires Wf(st) && Nested(st) && Wf(next) && LinksIsDone(st, k) && Stepped(Links, st, lex, next)
    ensures LinksIsDone(next, k) && next.toks[k].size == st.toks[k].size
  {
    SameChain(st.toks, next.toks, st.toksuper, k);
    SameChain(st.toks, next.toks, |st.toks| - 1, k);
    if lex.Close? && LastOpen(st.toks) != -1 {
      var x := LastOpen(st.toks);
      SameChain(st.toks, next.toks, st.toks[x].parent, k);
      if OnChain(st.toks, x, k) { ThroughAncestor(st.toks, |st.toks| - 1, k); }
    }
  }

  lemma SizesGrow(v: Variant, st: State, lex: Lexeme, next: State, k: int)
    requires Wf(st) && Stepped(v, st, lex, next) && 0 <= k < |st.toks|
    ensures k < |next.toks| && next.toks[k].size >= st.toks[k].size
  {
  }

  lemma {:induction false} RunGrows(v: Variant, js: string, cap: nat, st: State, k: int)
    requires Wf(st) && Nested(st) && 0 <= k < |st.toks|
    ensures Run(v, js, cap, st).st.toks[k].size >= st.toks[k].size
    decreases |js| - st.pos
  {
    if !AtEnd(js, st.pos) {
      var lex := LexemeAt(js, st.pos);
      RunStep(v, js, cap, st);
      ApplyKeepsNested(v, cap, st, lex);
      match Apply(v, cap, st, lex)
      case Halt(_) =>
      case Go(next) =>
        SizesGrow(v, st, lex, next, k);
        RunGrows(v, js, cap, next, k);
    }
  }

  lemma {:induction false} RunIsDone(v: Variant, js: string, cap: nat, st: State, k: int)
    requires Wf(st) && Nested(st) && IsDone(v, st, k)
    ensures Run(v, js, cap, st).st.toks[k].size == st.toks[k].size
    decreases |js| - st.pos
  {
    if !AtEnd(js, st.pos) {
      var lex := LexemeAt(js, st.pos);
      RunStep(v, js, cap, st);
      ApplyKeepsNested(v, cap, st, lex);
      match Apply(v, cap, st, lex)
      case Halt(_) =>
      case Go(next) =>
        if v == Scan { ScanStaysDone(st, lex, next, k); } else { LinksStaysDone(st, lex, next, k); }
        RunIsDone(v, js, cap, next, k);
    }
  }

  /** The size of `k` is behind in one build, which is done with it. */
  ghost predicate StaysBehind(a: State, b: State, k: int)
    requires Wf(a) && Wf(b)
  {
    0 <= k < |a.toks| && k < |b.toks| &&
    ((ScanIsDone(a, k) && a.toks[k].size < b.toks[k].size) || (LinksIsDone(b, k) && b.toks[k].size < a.toks[k].size))
  }

  /** A token that the builds count in different super tokens. */
  lemma Miscounted(a: State, b: State, lex: Lexeme, a': State, b': State) returns (k: int)
    requires Wf(a) && Wf(b) && Nested(a) && Nested(b) && Wf(a') && Wf(b') && Alike(a, b) && a.toksuper != b.toksuper
    requires MakesToken(lex) && Stepped(Scan, a, lex, a') && Stepped(Links, b, lex, b')
    ensures StaysBehind(a', b', k)
  {
    var i, j := a.toksuper, b.toksuper;
    if i != -1 && !OnChain(b.toks, j, i) {
      k := i;
      SameChain(b.toks, b'.toks, j, i);
    } else {
      k := j;
      SameOpen(a.toks, b.toks);
      if i != -1 { BelowOnChain(b.toks, j, i); }
    }
  }

  lemma {:induction false} BelowOnChain(toks: seq<Token>, j: int, k: int)
    requires WfToks(toks) && -1 <= j < |toks| && OnChain(toks, j, k)
    ensures 0 <= k <= j
    decreases j
  {
    if j != k { BelowOnChain(toks, toks[j].parent, k); }
  }

  /** Going step by step, the builds come to a token when their super tokens differ. */
  ghost predicate MeetsMiscount(js: string, cap: nat, a: State, b: State)
    requires Wf(a) && Wf(b)
    decreases |js| - a.pos
  {
    !AtEnd(js, a.pos)
    && var lex := LexemeAt(js, a.pos);
       var x, y := Apply(Scan, cap, a, lex), Apply(Links, cap, b, lex);
       RunStep(Scan, js, cap, a);
       ApplyKeepsWf(Links, cap, b, lex);
       x.Go? && y.Go? && ((MakesToken(lex) && a.toksuper != b.toksuper) || MeetsMiscount(js, cap, x.st, y.st))
  }

  lemma AlikeStep(a: State, b: State, lex: Lexeme, a': State, b': State)
    requires Wf(a) && Wf(b) && Alike(a, b) && (MakesToken(lex) ==> a.toksuper == b.toksuper)
    requires Stepped(Scan, a, lex, a') && Stepped(Links, b, lex, b')
    ensures Alike(a', b')
  {
    SameOpen(a.toks, b.toks);
  }

  lemma BehindToTheEnd(js: string, cap: nat, a: State, b: State, k: int)
    requires Wf(a) && Wf(b) && Nested(a) && Nested(b) && StaysBehind(a, b, k)
    ensures !Alike(Run(Scan, js, cap, a).st, Run(Links, js, cap, b).st)
  {
    RunGrows(Scan, js, cap, a, k);
    RunGrows(Links, js, cap, b, k);
    if ScanIsDone(a, k) && a.toks[k].size < b.toks[k].size { RunIsDone(Scan, js, cap, a, k); }
    else { RunIsDone(Links, js, cap, b, k); }
  }

  /** Runs that end alike otherwise end with the same sizes if and only if no token was miscounted. */
  lemma {:induction false} SizesAgreeBy(js: string, cap: nat, a: State, b: State)
    requires Wf(a) && Wf(b) && Nested(a) && Nested(b) && Alike(a, b)
    ensures var x, y := Run(Scan, js, cap, a), Run(Links, js, cap, b);
      && (MeetsMiscount(js, cap, a, b) ==> !Alike(x.st, y.st))
      && (!MeetsMiscount(js, cap, a, b) && y.why != Stray && !(AtUnmatchedClose(js, x) && x.st.toks != []) ==>
            Alike(x.st, y.st))
    decreases |js| - a.pos
  {
    if !AtEnd(js, a.pos) {
      var lex := LexemeAt(js, a.pos);
      RunStep(Scan, js, cap, a);
      RunStep(Links, js, cap, b);
      ApplyMatches(cap, a, b, lex);
      var x, y := Apply(Scan, cap, a, lex), Apply(Links, cap, b, lex);
      if x.Go? && y.Go? {
        ApplyKeepsNested(Scan, cap, a, lex);
        ApplyKeepsNested(Links, cap, b, lex);
        if MakesToken(lex) && a.toksuper != b.toksuper {
          var k := Miscounted(a, b, lex, x.st, y.st);
          BehindToTheEnd(js, cap, x.st, y.st, k);
        } else {
          AlikeStep(a, b, lex, x.st, y.st);
          SizesAgreeBy(js, cap, x.st, y.st);
        }
      }
    }
  }

  // ------------------------------------------------- where the super tokens are

  /**
   * The super token of the default build: the innermost open bracket, or none; or the token that the last colon
   * chose, a scalar or a container, with the other build there too; or such a token that the other build has left.
   */
  datatype Place = Home | There(scalar: bool) | Left

  /**
   * `links`: how many commas lead the super token of the build with parent links home; Endless if a closed container
   * is in between. `outer`: the same for each open bracket, of the super token it was opened in. `last` and `scalar`:
   * the same of the last token, and whether it is a scalar. `scan`: the place of the other build's super token.
   */
  datatype Supers = Supers(outer: seq<Credit>, links: Credit, last: Credit, scalar: bool, scan: Place)

  const NO_SUPERS := Supers([], Commas(0), Commas(0), false, Home)

  predicate SameSuper(s: Supers) { s.scan.There? || (s.scan.Home? && s.links == Commas(0)) }

  /** One piece that both builds take. */
  function Move(s: Supers, p: Piece): Supers {
    match p
    case OpenBracket(_) => Supers(s.outer + [s.links], Commas(0), Commas(0), false, Home)
    case CloseBracket(_) =>
      if s.outer == [] then s
      else Supers(s.outer[..|s.outer| - 1], s.outer[|s.outer| - 1], Endless, s.scalar, Home)
    case Text(_) => s.(last := More(s.links), scalar := true)
    case Word(_) => s.(last := More(s.links), scalar := true)
    case ColonSign => s.(links := s.last, scan := if s.last == Commas(0) then Home else There(s.scalar))
    case CommaSign => s.(links := Fewer(s.links), scan := AfterComma(s))
    case Space(_) => s
  }

  function Fewer(c: Credit): Credit { if c.Commas? && c.n > 0 then Commas(c.n - 1) else c }

  function AfterComma(s: Supers): Place {
    if s.scan != There(true) then s.scan else if s.outer == [] then Left else Home
  }

  function MoveAll(s: Supers, ps: seq<Piece>): Supers
    decreases |ps|
  {
    if ps == [] then s else MoveAll(Move(s, ps[0]), ps[1..])
  }

  // ------------------------------------------------------- the same, of two states

  /** Commas from token `k` to the open token around it, or to none. */
  ghost function UpCredit(toks: seq<Token>, k: int): Credit
    requires WfToks(toks) && -1 <= k < |toks|
    decreases k
  {
    if k == -1 || IsOpen(toks[k]) then Commas(0)
    else if IsContainer(toks[k].typ) then Endless
    else More(UpCredit(toks, toks[k].parent))
  }

  /** The credits of the super tokens in which the open ones of the first `n` tokens were allocated. */
  ghost function OuterCredits(toks: seq<Token>, n: nat): seq<Credit>
    requires WfToks(toks) && n <= |toks|
  {
    if n == 0 then []
    else OuterCredits(toks, n - 1) + (if IsOpen(toks[n - 1]) then [UpCredit(toks, toks[n - 1].parent)] else [])
  }

  /** The builds are at the same place; where the other build has left a super token, it is at one further out. */
  ghost predicate InStep(a: State, b: State) {
    && Wf(a) && Wf(b) && Nested(a) && Nested(b) && Matches(a, b)
    && (a.toksuper != LastOpen(b.toks) && a.toksuper != b.toksuper ==>
          LastOpen(b.toks) == -1 && b.toksuper < a.toksuper && !IsContainer(b.toks[a.toksuper].typ))
  }

  ghost function PlaceOf(a: State, b: State): Place
    requires InStep(a, b)
  {
    if a.toksuper == LastOpen(b.toks) then Home
    else if a.toksuper == b.toksuper then There(a.toksuper != -1 && !IsContainer(b.toks[a.toksuper].typ))
    else Left
  }

  ghost function SupersOf(a: State, b: State): Supers
    requires InStep(a, b)
  {
    var n := |b.toks|;
    Supers(OuterCredits(b.toks, n), UpCredit(b.toks, b.toksuper), UpCredit(b.toks, n - 1),
           n > 0 && !IsContainer(b.toks[n - 1].typ), PlaceOf(a, b))
  }

  lemma PlaceTellsSuper(a: State, b: State)
    requires InStep(a, b)
    ensures SameSuper(SupersOf(a, b)) <==> a.toksuper == b.toksuper
  {
    SameOpen(a.toks, b.toks);
  }

  lemma {:induction false} SameUp(a: seq<Token>, b: seq<Token>, n: nat, k: int)
    requires WfToks(a) && WfToks(b) && -1 <= k < n <= |a| && n <= |b|
    requires forall i :: 0 <= i < n ==>
      a[i].parent == b[i].parent && a[i].typ == b[i].typ && IsOpen(a[i]) == IsOpen(b[i])
    ensures UpCredit(a, k) == UpCredit(b, k)
    decreases k
  {
    if k != -1 { SameUp(a, b, n, a[k].parent); }
  }

  lemma {:induction false} SameOuter(a: seq<Token>, b: seq<Token>, n: nat)
    requires WfToks(a) && WfToks(b) && n <= |a| && n <= |b|
    requires forall i :: 0 <= i < n ==>
      a[i].parent == b[i].parent && a[i].typ == b[i].typ && IsOpen(a[i]) == IsOpen(b[i])
    ensures OuterCredits(a, n) == OuterCredits(b, n)
    decreases n
  {
    if n > 0 {
      SameOuter(a, b, n - 1);
      SameUp(a, b, n, a[n - 1].parent);
    }
  }

  lemma {:induction false} NoneOpenAbove(toks: seq<Token>, x: nat, n: nat)
    requires WfToks(toks) && x <= n <= |toks| && forall k :: x <= k < n ==> !IsOpen(toks[k])
    ensures OuterCredits(toks, n) == OuterCredits(toks, x)
    decreases n
  {
    if x < n { NoneOpenAbove(toks, x, n - 1); }
  }

  lemma {:induction false} NoneOpen(toks: seq<Token>, n: nat)
    requires WfToks(toks) && n <= |toks|
    ensures OuterCredits(toks, n) == [] <==> forall k :: 0 <= k < n ==> !IsOpen(toks[k])
    decreases n
  {
    if n > 0 { NoneOpen(toks, n - 1); }
  }

  lemma {:induction false} UpEndsClosed(toks: seq<Token>, closed: seq<Token>, x: nat, k: int)
    requires WfToks(toks) && WfToks(closed) && -1 <= k < |toks| == |closed| && x < |toks| && IsOpen(toks[x])
    requires exists end :: 0 <= end && closed == CloseToken(toks, x, end)
    requires OpenAncestor(toks, k) == x
    ensures UpCredit(closed, k) == Endless
    decreases k
  {
    if k != x { UpEndsClosed(toks, closed, x, toks[k].parent); }
  }

  // -------------------------------------------------------------- step by step

  /** Both builds take the same lexeme. */
  ghost predicate StepBoth(a: State, b: State, lex: Lexeme, a': State, b': State)
    requires Wf(a) && Wf(b)
  {
    && Wf(a') && Wf(b') && Nested(a') && Nested(b')
    && Stepped(Scan, a, lex, a') && Stepped(Links, b, lex, b')
    && (lex.Close? ==> LastOpen(a.toks) != -1) && (lex.Comma? ==> b.toksuper != -1)
  }

  lemma TokenCredits(st: State, p: Piece, next: State)
    requires Wf(st) && TokenAdded(st, p, next)
    ensures var n, links := |st.toks|, UpCredit(st.toks, st.toksuper);
      && OuterCredits(next.toks, n + 1) == OuterCredits(st.toks, n) + (if p.OpenBracket? then [links] else [])
      && UpCredit(next.toks, st.toksuper) == links
      && UpCredit(next.toks, n) == (if p.OpenBracket? then Commas(0) else More(links))
  {
    var n := |st.toks|;
    AddedChains(st, p, next);
    assert forall k :: 0 <= k < n ==> IsOpen(next.toks[k]) == IsOpen(next.toks[..n][k]);
    SameOuter(next.toks, st.toks, n);
    SameUp(next.toks, st.toks, n, st.toksuper);
  }

  lemma CloseCredits(st: State, next: State)
    requires Wf(st) && Nested(st) && BracketClosed(Links, st, next)
    ensures var n, x := |st.toks|, LastOpen(st.toks);
      && OuterCredits(st.toks, n) == OuterCredits(next.toks, n) + [UpCredit(next.toks, next.toksuper)]
      && UpCredit(next.toks, n - 1) == Endless
  {
    var n, x := |st.toks|, LastOpen(st.toks);
    SameUp(st.toks, next.toks, x, st.toks[x].parent);
    SameOuter(st.toks, next.toks, x);
    NoneOpenAbove(st.toks, x + 1, n);
    NoneOpenAbove(next.toks, x, n);
    UpEndsClosed(st.toks, next.toks, x, n - 1);
  }

  lemma LinksAdds(b: State, p: Piece, b': State)
    requires Wf(b) && IsToken(p) && Wf(b') && Stepped(Links, b, LexemeOf(p, b.pos), b')
    ensures TokenAdded(b, p, b')
  {
  }

  lemma ScanAdds(a: State, p: Piece, a': State)
    requires Wf(a) && IsToken(p) && Stepped(Scan, a, LexemeOf(p, a.pos), a')
    ensures a'.toksuper == if p.OpenBracket? then |a.toks| else a.toksuper
  {
  }

  lemma TokenInStep(a: State, b: State, p: Piece, a': State, b': State)
    requires InStep(a, b) && TokenAdded(b, p, b') && Wf(a') && Nested(a') && Nested(b') && Matches(a', b')
    requires a'.toksuper == if p.OpenBracket? then |b.toks| else a.toksuper
    ensures InStep(a', b') && PlaceOf(a', b') == if p.OpenBracket? then Home else PlaceOf(a, b)
  {
    var n := |b.toks|;
    AddedChains(b, p, b');
    SameOpen(b'.toks[..n], b.toks);
  }

  lemma CloseInStep(a: State, b: State, t: TokenType, a': State, b': State)
    requires InStep(a, b) && IsContainer(t) && StepBoth(a, b, Close(t), a', b')
    ensures InStep(a', b') && BracketClosed(Links, b, b') && PlaceOf(a', b') == Home
  {
    StepsMatch(a, b, Close(t), a', b');
    SameOpen(a.toks, b.toks);
    SameOpen(a'.toks, b'.toks);
  }

  lemma TokenComes(s: Supers, s': Supers, p: Piece)
    requires IsToken(p) && s'.outer == s.outer + (if p.OpenBracket? then [s.links] else [])
    requires s'.links == (if p.OpenBracket? then Commas(0) else s.links)
    requires s'.last == (if p.OpenBracket? then Commas(0) else More(s.links)) && s'.scalar == !p.OpenBracket?
    requires s'.scan == (if p.OpenBracket? then Home else s.scan)
    ensures s' == Move(s, p)
  {
    assert s.outer + [] == s.outer;
  }

  lemma AddedMoves(a: State, b: State, p: Piece, a': State, b': State)
    requires InStep(a, b) && InStep(a', b') && TokenAdded(b, p, b')
    requires PlaceOf(a', b') == if p.OpenBracket? then Home else PlaceOf(a, b)
    ensures SupersOf(a', b') == Move(SupersOf(a, b), p)
  {
    TokenCredits(b, p, b');
    AddedChains(b, p, b');
    TokenComes(SupersOf(a, b), SupersOf(a', b'), p);
  }

  lemma TokenMoves(a: State, b: State, p: Piece, a': State, b': State)
    requires InStep(a, b) && IsToken(p) && StepBoth(a, b, LexemeOf(p, a.pos), a', b')
    ensures InStep(a', b') && SupersOf(a', b') == Move(SupersOf(a, b), p)
  {
    LinksAdds(b, p, b');
    ScanAdds(a, p, a');
    StepsMatch(a, b, LexemeOf(p, a.pos), a', b');
    TokenInStep(a, b, p, a', b');
    AddedMoves(a, b, p, a', b');
  }

  lemma ClosedKinds(st: State, next: State)
    requires Wf(st) && BracketClosed(Links, st, next)
    ensures |next.toks| == |st.toks| > 0 && next.toks[|st.toks| - 1].typ == st.toks[|st.toks| - 1].typ
  {
  }

  lemma PopsLast(s: Supers, s': Supers, curly: bool)
    requires s.outer == s'.outer + [s'.links] && s'.last == Endless && s'.scalar == s.scalar && s'.scan == Home
    ensures s' == Move(s, CloseBracket(curly))
  {
  }

  lemma ClosePops(a: State, b: State, curly: bool, a': State, b': State)
    requires InStep(a, b) && InStep(a', b') && BracketClosed(Links, b, b') && PlaceOf(a', b') == Home
    ensures SupersOf(a', b') == Move(SupersOf(a, b), CloseBracket(curly))
  {
    CloseCredits(b, b');
    ClosedKinds(b, b');
    PopsLast(SupersOf(a, b), SupersOf(a', b'), curly);
  }

  lemma CloseMoves(a: State, b: State, curly: bool, a': State, b': State)
    requires InStep(a, b) && StepBoth(a, b, Close(TypeFor(curly)), a', b')
    ensures InStep(a', b') && SupersOf(a', b') == Move(SupersOf(a, b), CloseBracket(curly))
  {
    CloseInStep(a, b, TypeFor(curly), a', b');
    ClosePops(a, b, curly, a', b');
  }

  lemma ColonInStep(a: State, b: State, a': State, b': State)
    requires InStep(a, b) && StepBoth(a, b, Colon, a', b')
    ensures InStep(a', b') && b' == b.(pos := b.pos + 1, toksuper := |b.toks| - 1) && a'.toksuper == |b.toks| - 1
  {
    StepsMatch(a, b, Colon, a', b');
  }

  /** The last token is at home exactly if it is open, or there is none. */
  lemma LastAtHome(b: State)
    requires Wf(b) && Nested(b)
    ensures UpCredit(b.toks, |b.toks| - 1) == Commas(0) <==> |b.toks| - 1 == LastOpen(b.toks)
  {
  }

  lemma ColonMoves(a: State, b: State, a': State, b': State)
    requires InStep(a, b) && StepBoth(a, b, Colon, a', b')
    ensures InStep(a', b') && SupersOf(a', b') == Move(SupersOf(a, b), ColonSign)
  {
    ColonInStep(a, b, a', b');
    LastAtHome(b);
  }

  lemma CommaInStep(a: State, b: State, a': State, b': State)
    requires InStep(a, b) && StepBoth(a, b, Comma, a', b')
    ensures InStep(a', b') && b'.toks == b.toks && b'.toksuper == SuperAfterComma(Links, b)
    ensures PlaceOf(a', b') == if PlaceOf(a, b) != There(true) then PlaceOf(a, b)
                               else if LastOpen(b.toks) == -1 then Left else Home
  {
    StepsMatch(a, b, Comma, a', b');
    SameOpen(a.toks, b.toks);
  }

  lemma CommaCredits(b: State)
    requires Wf(b) && b.toksuper != -1
    ensures Wf(b.(toksuper := SuperAfterComma(Links, b)))
    ensures UpCredit(b.toks, SuperAfterComma(Links, b)) == Fewer(UpCredit(b.toks, b.toksuper))
    ensures OuterCredits(b.toks, |b.toks|) == [] <==> LastOpen(b.toks) == -1
  {
    NoneOpen(b.toks, |b.toks|);
  }

  lemma CommaLeaves(s: Supers, s': Supers, inside: bool)
    requires s'.outer == s.outer && s'.last == s.last && s'.scalar == s.scalar && s'.links == Fewer(s.links)
    requires inside == (s.outer != [])
    requires s'.scan == if s.scan != There(true) then s.scan else if inside then Home else Left
    ensures s' == Move(s, CommaSign)
  {
  }

  lemma CommaPlaced(a: State, b: State, a': State, b': State)
    requires InStep(a, b) && InStep(a', b') && b.toksuper != -1
    requires b'.toks == b.toks && b'.toksuper == SuperAfterComma(Links, b)
    requires PlaceOf(a', b') == if PlaceOf(a, b) != There(true) then PlaceOf(a, b)
                                else if LastOpen(b.toks) == -1 then Left else Home
    ensures SupersOf(a', b') == Move(SupersOf(a, b), CommaSign)
  {
    CommaCredits(b);
    CommaLeaves(SupersOf(a, b), SupersOf(a', b'), LastOpen(b.toks) != -1);
  }

  lemma CommaMoves(a: State, b: State, a': State, b': State)
    requires InStep(a, b) && StepBoth(a, b, Comma, a', b')
    ensures InStep(a', b') && SupersOf(a', b') == Move(SupersOf(a, b), CommaSign)
  {
    CommaInStep(a, b, a', b');
    CommaPlaced(a, b, a', b');
  }

  lemma BothPass(a: State, b: State, a': State, b': State)
    requires InStep(a, b) && StepBoth(a, b, Blank, a', b')
    ensures a' == a.(pos := a.pos + 1) && b' == b.(pos := a.pos + 1)
  {
  }

  lemma PassedInStep(a: State, b: State, n: nat)
    requires InStep(a, b)
    ensures InStep(a.(pos := n), b.(pos := n)) && SupersOf(a.(pos := n), b.(pos := n)) == SupersOf(a, b)
  {
  }

  lemma SpaceMoves(a: State, b: State, c: char, a': State, b': State)
    requires InStep(a, b) && StepBoth(a, b, Blank, a', b')
    ensures InStep(a', b') && SupersOf(a', b') == Move(SupersOf(a, b), Space(c))
  {
    BothPass(a, b, a', b');
    PassedInStep(a, b, a.pos + 1);
  }

  lemma PieceMoves(a: State, b: State, p: Piece, a': State, b': State)
    requires InStep(a, b) && StepBoth(a, b, LexemeOf(p, a.pos), a', b')
    ensures InStep(a', b') && SupersOf(a', b') == Move(SupersOf(a, b), p)
  {
    match p
    case OpenBracket(_) => TokenMoves(a, b, p, a', b');
    case Text(_) => TokenMoves(a, b, p, a', b');
    case Word(_) => TokenMoves(a, b, p, a', b');
    case CloseBracket(curly) => CloseMoves(a, b, curly, a', b');
    case ColonSign => ColonMoves(a, b, a', b');
    case CommaSign => CommaMoves(a, b, a', b');
    case Space(c) => SpaceMoves(a, b, c, a', b');
  }

  // ------------------------------------------------------------- told by the text

  /** Where both builds can be fed the pieces, they end with the same super token exactly if the text says so. */
  lemma {:induction false} FeedMoves(cap: nat, a: State, b: State, ps: seq<Piece>)
    requires InStep(a, b)
    requires Feed(Scan, cap, a, ps).why == EndOfText && Feed(Links, cap, b, ps).why == EndOfText
    ensures var x, y := Feed(Scan, cap, a, ps).st, Feed(Links, cap, b, ps).st;
      InStep(x, y) && SupersOf(x, y) == MoveAll(SupersOf(a, b), ps)
    decreases |ps|
  {
    if ps != [] {
      var x, y := FedBoth(cap, a, b, ps);
      PieceMoves(a, b, ps[0], x, y);
      FeedMoves(cap, x, y, ps[1..]);
    }
  }

  lemma FedBoth(cap: nat, a: State, b: State, ps: seq<Piece>) returns (x: State, y: State)
    requires InStep(a, b) && ps != []
    requires Feed(Scan, cap, a, ps).why == EndOfText && Feed(Links, cap, b, ps).why == EndOfText
    ensures StepBoth(a, b, LexemeOf(ps[0], a.pos), x, y)
    ensures Apply(Scan, cap, a, LexemeOf(ps[0], a.pos)) == Go(x)
    ensures Apply(Links, cap, b, LexemeOf(ps[0], a.pos)) == Go(y)
    ensures Feed(Scan, cap, a, ps) == Feed(Scan, cap, x, ps[1..])
    ensures Feed(Links, cap, b, ps) == Feed(Links, cap, y, ps[1..])
  {
    var lex := LexemeOf(ps[0], a.pos);
    x, y := Apply(Scan, cap, a, lex).st, Apply(Links, cap, b, lex).st;
    BothStep(cap, a, b, lex, x, y);
    FeedUnfolds(Scan, cap, a, ps, x);
    FeedUnfolds(Links, cap, b, ps, y);
  }

  lemma BothStep(cap: nat, a: State, b: State, lex: Lexeme, x: State, y: State)
    requires Wf(a) && Wf(b) && Nested(a) && Nested(b) && (lex.Open? ==> IsContainer(lex.typ))
    requires Apply(Scan, cap, a, lex) == Go(x) && Apply(Links, cap, b, lex) == Go(y)
    ensures StepBoth(a, b, lex, x, y)
  {
    ApplyKeepsNested(Scan, cap, a, lex);
    ApplyKeepsNested(Links, cap, b, lex);
  }

  /**
   * The pieces up to `n` end in a token for which there is room and at which the super tokens differ; before it
   * brackets are in order, and with parent links every comma finds a super token.
   */
  ghost predicate Miscount(js: string, cap: nat, ps: seq<Piece>, n: nat) {
    && ps != [] && SpellsPart(ps, js, 0, n) && IsToken(ps[|ps| - 1]) && TokenCount(ps) <= cap
    && var before := ps[..|ps| - 1];
       && Follow(Scan, START, before, 0).Some? && AllAnswered(Links, OpenLedger(Links), before)
       && !SameSuper(MoveAll(NO_SUPERS, before))
  }

  /** What stands before the token that is miscounted, and the token. */
  ghost predicate MiscountAt(js: string, cap: nat, a: State, b: State, before: seq<Piece>, p: Piece, n: nat)
    requires Wf(a) && Wf(b)
  {
    var x, y := Feed(Scan, cap, a, before), Feed(Links, cap, b, before);
    && SpellsPart(before + [p], js, a.pos, n) && IsToken(p) && x.why == EndOfText && y.why == EndOfText
    && x.st.toksuper != y.st.toksuper && |x.st.toks| < cap
  }

  lemma MiscountNow(js: string, cap: nat, a: State, b: State) returns (p: Piece, n: nat)
    requires Wf(a) && Wf(b) && !AtEnd(js, a.pos) && MakesToken(LexemeAt(js, a.pos)) && a.toksuper != b.toksuper
    requires Apply(Scan, cap, a, LexemeAt(js, a.pos)).Go?
    ensures MiscountAt(js, cap, a, b, [], p, n)
  {
    p := ReadPiece(js, a.pos);
    n := After(a.pos, LexemeAt(js, a.pos));
    assert SpellsPart([], js, n, n);
    PieceBefore(p, [], js, a.pos, n, n);
    assert [] + [p] == [p] == [p] + [];
    assert Feed(Scan, cap, a, []) == Result(a, EndOfText) && Feed(Links, cap, b, []) == Result(b, EndOfText);
  }

  lemma FeedFirst(v: Variant, cap: nat, st: State, q: Piece, rest: seq<Piece>, next: State)
    requires Wf(st) && Wf(next) && Apply(v, cap, st, LexemeOf(q, st.pos)) == Go(next)
    ensures Feed(v, cap, st, [q] + rest) == Feed(v, cap, next, rest)
  {
    assert ([q] + rest)[1..] == rest;
    FeedUnfolds(v, cap, st, [q] + rest, next);
  }

  lemma OneMoreBefore(js: string, from: nat, next: nat, n: nat, q: Piece, before: seq<Piece>, p: Piece)
    requires !AtEnd(js, from) && LexemeAt(js, from) != Bad && LexemeAt(js, from) != Cut
    requires IsPiece(q) && LexemeOf(q, from) == LexemeAt(js, from) && next == After(from, LexemeAt(js, from)) <= |js|
    requires js[from..next] == Spell(q) && SpellsPart(before + [p], js, next, n)
    requires q.Word? ==> AtEnd(js, next) || EndsPrimitive(js[next])
    ensures SpellsPart([q] + before + [p], js, from, n)
  {
    PieceBefore(q, before + [p], js, from, next, n);
    assert [q] + before + [p] == [q] + (before + [p]);
  }

  lemma MiscountLater(js: string, cap: nat, a: State, b: State, x: State, y: State,
        before: seq<Piece>, p: Piece, n: nat)
    returns (more: seq<Piece>)
    requires Wf(a) && Wf(b) && Wf(x) && Wf(y) && a.pos == b.pos && !AtEnd(js, a.pos)
    requires MiscountAt(js, cap, x, y, before, p, n)
    requires Apply(Scan, cap, a, LexemeAt(js, a.pos)) == Go(x) && Apply(Links, cap, b, LexemeAt(js, a.pos)) == Go(y)
    ensures MiscountAt(js, cap, a, b, more, p, n)
  {
    var q := ReadPiece(js, a.pos);
    ApplyMoves(Scan, cap, a, LexemeAt(js, a.pos));
    OneMoreBefore(js, a.pos, x.pos, n, q, before, p);
    FeedFirst(Scan, cap, a, q, before, x);
    FeedFirst(Links, cap, b, q, before, y);
    more := [q] + before;
  }

  lemma {:induction false} MiscountIsRead(js: string, cap: nat, a: State, b: State)
    returns (before: seq<Piece>, p: Piece, n: nat)
    requires InStep(a, b) && MeetsMiscount(js, cap, a, b)
    ensures MiscountAt(js, cap, a, b, before, p, n)
    decreases |js| - a.pos
  {
    var lex := LexemeAt(js, a.pos);
    if MakesToken(lex) && a.toksuper != b.toksuper {
      before := [];
      p, n := MiscountNow(js, cap, a, b);
    } else {
      RunStep(Scan, js, cap, a);
      var x, y := Apply(Scan, cap, a, lex).st, Apply(Links, cap, b, lex).st;
      BothStep(cap, a, b, lex, x, y);
      var q := ReadPiece(js, a.pos);
      PieceMoves(a, b, q, x, y);
      before, p, n := MiscountIsRead(js, cap, x, y);
      before := MiscountLater(js, cap, a, b, x, y, before, p, n);
    }
  }

  lemma {:induction false} MiscountIsMet(js: string, cap: nat, a: State, b: State, before: seq<Piece>, p: Piece, n: nat)
    requires InStep(a, b) && MiscountAt(js, cap, a, b, before, p, n)
    ensures MeetsMiscount(js, cap, a, b)
    decreases |before|
  {
    var ps := before + [p];
    var next := FirstPieceIsRead(js, a.pos, n, ps);
    RunStep(Scan, js, cap, a);
    if before == [] {
      MiscountIsNow(js, cap, a, b, p);
    } else {
      assert ps[0] == before[0] && ps[1..] == before[1..] + [p];
      var x, y := FedBoth(cap, a, b, before);
      PieceMoves(a, b, before[0], x, y);
      MiscountIsMet(js, cap, x, y, before[1..], p, n);
    }
  }

  lemma MiscountIsNow(js: string, cap: nat, a: State, b: State, p: Piece)
    requires InStep(a, b) && IsToken(p) && a.toksuper != b.toksuper && |a.toks| < cap
    requires !AtEnd(js, a.pos) && LexemeAt(js, a.pos) == LexemeOf(p, a.pos)
    ensures MeetsMiscount(js, cap, a, b)
  {
  }

  // ---------------------------------------------------------------- from the start

  lemma {:induction false} CountWithOneMore(ps: seq<Piece>, p: Piece)
    ensures TokenCount(ps + [p]) == TokenCount(ps) + (if IsToken(p) then 1 else 0)
    decreases |ps|
  {
    if ps == [] {
      assert [] + [p] == [p];
    } else {
      assert (ps + [p])[1..] == ps[1..] + [p];
      CountWithOneMore(ps[1..], p);
    }
  }

  lemma {:induction false} FollowBoth(o: Outline, ps: seq<Piece>, at: nat)
    requires Follow(Scan, o, ps, at).Some?
    ensures Follow(Links, o, ps, at).Some?
    decreases |ps|
  {
    if ps != [] { FollowBoth(FollowPiece(Scan, o, ps[0], at).value, ps[1..], at + |Spell(ps[0])|); }
  }

  lemma StartInStep()
    ensures InStep(INIT, INIT) && SupersOf(INIT, INIT) == NO_SUPERS
    ensures OutlineOf(INIT) == START && LedgerOf(Links, INIT) == OpenLedger(Links)
  {
    InitInv();
  }

  /** Pieces can be fed to both builds exactly if they are in order for both. */
  lemma FedToBoth(cap: nat, ps: seq<Piece>)
    ensures Feed(Scan, cap, INIT, ps).why == EndOfText && Feed(Links, cap, INIT, ps).why == EndOfText ==>
              && Follow(Scan, START, ps, 0).Some? && AllAnswered(Links, OpenLedger(Links), ps)
              && |Feed(Scan, cap, INIT, ps).st.toks| == TokenCount(ps)
    ensures Follow(Scan, START, ps, 0).Some? && AllAnswered(Links, OpenLedger(Links), ps) && TokenCount(ps) <= cap ==>
              Feed(Scan, cap, INIT, ps).why == EndOfText && Feed(Links, cap, INIT, ps).why == EndOfText
  {
    StartInStep();
    FeedIsFollowed(Scan, cap, INIT, ps);
    FeedIsFollowed(Links, cap, INIT, ps);
    FeedIsBooked(Links, cap, INIT, ps);
    FeedNeverStrays(cap, INIT, ps);
    if Follow(Scan, START, ps, 0).Some? { FollowBoth(START, ps, 0); }
  }

  /** The two super tokens, after any pieces that both builds take. */
  lemma SupersAgreeExactly(cap: nat, ps: seq<Piece>)
    requires Feed(Scan, cap, INIT, ps).why == EndOfText && Feed(Links, cap, INIT, ps).why == EndOfText
    ensures Feed(Scan, cap, INIT, ps).st.toksuper == Feed(Links, cap, INIT, ps).st.toksuper
            <==> SameSuper(MoveAll(NO_SUPERS, ps))
  {
    StartInStep();
    FeedMoves(cap, INIT, INIT, ps);
    PlaceTellsSuper(Feed(Scan, cap, INIT, ps).st, Feed(Links, cap, INIT, ps).st);
  }

  lemma MiscountIsTold(js: string, cap: nat, before: seq<Piece>, p: Piece, n: nat)
    ensures MiscountAt(js, cap, INIT, INIT, before, p, n) <==> Miscount(js, cap, before + [p], n) && IsToken(p)
  {
    var ps := before + [p];
    assert ps[..|ps| - 1] == before;
    CountWithOneMore(before, p);
    FedToBoth(cap, before);
    if Feed(Scan, cap, INIT, before).why == EndOfText && Feed(Links, cap, INIT, before).why == EndOfText {
      SupersAgreeExactly(cap, before);
    }
  }

  lemma MiscountIsSpelled(js: string, cap: nat) returns (ps: seq<Piece>, n: nat)
    requires MeetsMiscount(js, cap, INIT, INIT)
    ensures Miscount(js, cap, ps, n)
  {
    StartInStep();
    var before, p;
    before, p, n := MiscountIsRead(js, cap, INIT, INIT);
    MiscountIsTold(js, cap, before, p, n);
    ps := before + [p];
  }

  lemma SpelledIsMet(js: string, cap: nat, ps: seq<Piece>, n: nat)
    requires Miscount(js, cap, ps, n)
    ensures MeetsMiscount(js, cap, INIT, INIT)
  {
    StartInStep();
    var before, p := ps[..|ps| - 1], ps[|ps| - 1];
    assert before + [p] == ps;
    MiscountIsTold(js, cap, before, p, n);
    MiscountIsMet(js, cap, INIT, INIT, before, p, n);
  }

  /** From fresh parsers a token is miscounted exactly where the text says so. */
  lemma MiscountExactly(js: string, cap: nat)
    ensures MeetsMiscount(js, cap, INIT, INIT) <==> exists ps, n :: Miscount(js, cap, ps, n)
  {
    if MeetsMiscount(js, cap, INIT, INIT) { var ps, n := MiscountIsSpelled(js, cap); }
    if ps, n :| Miscount(js, cap, ps, n) { SpelledIsMet(js, cap, ps, n); }
  }

  /** The build with parent links has a defined end, and code, position, types, spans and sizes are the same. */
  ghost predicate AlikeAtEnd(js: string, cap: nat) {
    SameEnd(js, cap) && Alike(Run(Scan, js, cap, INIT).st, Run(Links, js, cap, INIT).st)
  }

  /**
   * On every text and with any room, both builds return the same code, position and tokens with their
   * sizes if and only if the text has no bracket that closes nothing after a token, no comma that finds
   * no super token, and no token that comes while the super tokens differ.
   */
  lemma VariantsAgreeExactly(js: string, cap: nat)
    ensures AlikeAtEnd(js, cap) <==>
            && !(exists ps, n :: ClosesNothing(js, cap, ps, n))
            && !(exists ps, n :: BareComma(Links, js, cap, ps, n))
            && !(exists ps, n :: Miscount(js, cap, ps, n))
  {
    InitInv();
    SpansAgreeExactly(js, cap);
    SameEndBy(js, cap);
    SizesAgreeBy(js, cap, INIT, INIT);
    MiscountExactly(js, cap);
  }
}
