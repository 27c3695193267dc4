/**
 * What every reachable token array looks like, in both builds: the chains of
 * parents run through the open tokens, spans are nested or disjoint, and a
 * token's size is the number of tokens allocated under it.
 */
module JsmnInvariants {
  import opened JsmnModel

  /** Lexemes read at a position, as far as their extent goes. */
  predicate Reads(pos: nat, lex: Lexeme) {
    (lex.Open? ==> IsContainer(lex.typ)) && (lex.Quoted? ==> pos < lex.end) && (lex.Bare? ==> pos < lex.end)
  }

  // ------------------------------------------------------------ the open tokens

  /**
   * The super token and the last token lie in the innermost open token, and the
   * parent of an open token lies in the next one out.
   */
  ghost predicate Nested(st: State)
    requires Wf(st)
  {
    NestedTokens(st.toks, st.toksuper)
  }

  ghost predicate NestedTokens(toks: seq<Token>, super: int)
    requires WfToks(toks) && -1 <= super < |toks|
  {
    && OpenAncestor(toks, super) == LastOpen(toks)
    && OpenAncestor(toks, |toks| - 1) == LastOpen(toks)
    && forall x {:trigger LinkedOut(toks, x)} :: 0 <= x < |toks| && IsOpen(toks[x]) ==> LinkedOut(toks, x)
  }

  /** The parent of `x` lies in the last token that was open when `x` was allocated. */
  ghost predicate LinkedOut(toks: seq<Token>, x: nat)
    requires WfToks(toks) && x < |toks|
  {
    OpenAncestor(toks, toks[x].parent) == LastOpen(toks[..x])
  }

  lemma {:induction false} SameAncestors(a: seq<Token>, b: seq<Token>, k: int)
    requires WfToks(a) && WfToks(b) && -1 <= k < |a| && k < |b|
    requires forall i :: 0 <= i <= k ==> a[i].parent == b[i].parent && IsOpen(a[i]) == IsOpen(b[i])
    ensures OpenAncestor(a, k) == OpenAncestor(b, k)
    decreases k
  {
    if k >= 0 && !IsOpen(a[k]) { SameAncestors(a, b, a[k].parent); }
  }

  lemma {:induction false} AncestorsAfterClose(toks: seq<Token>, x: nat, end: nat, k: int)
    requires WfToks(toks) && -1 <= k < |toks| && x < |toks|
    ensures WfToks(CloseToken(toks, x, end))
    ensures var closed := CloseToken(toks, x, end);
            OpenAncestor(closed, k)
            == if OpenAncestor(toks, k) == x then OpenAncestor(toks, toks[x].parent) else OpenAncestor(toks, k)
    decreases k
  {
    var closed := CloseToken(toks, x, end);
    if k == x {
      SameAncestors(closed, toks, toks[x].parent);
      if !IsOpen(toks[x]) && OpenAncestor(toks, toks[x].parent) == x { assert false; }
    } else if k >= 0 && !IsOpen(toks[k]) {
      AncestorsAfterClose(toks, x, end, toks[k].parent);
    }
  }

  ghost predicate Extends(a: seq<Token>, b: seq<Token>) {
    |b| == |a| + 1 && forall k :: 0 <= k < |a| ==> b[k].parent == a[k].parent && IsOpen(b[k]) == IsOpen(a[k])
  }

  lemma AllocateKeepsNested(st: State, lex: Lexeme, next: State)
    requires Wf(st) && Nested(st) && Wf(next) && MakesToken(lex) && next.toks == Allocate(st, lex)
    requires next.toksuper == if lex.Open? then |st.toks| else st.toksuper
    ensures Nested(next)
  {
    ExtensionKeepsNested(st, next);
  }

  lemma ExtensionKeepsNested(st: State, next: State)
    requires Wf(st) && Nested(st) && Wf(next) && Extends(st.toks, next.toks)
    requires next.toks[|st.toks|].parent == st.toksuper
    requires next.toksuper == if IsOpen(next.toks[|st.toks|]) then |st.toks| else st.toksuper
    ensures Nested(next)
  {
    SameAncestors(next.toks, st.toks, st.toksuper);
    SameOpen(next.toks[..|st.toks|], st.toks);
    forall x | 0 <= x < |next.toks| && IsOpen(next.toks[x]) ensures LinkedOut(next.toks, x) {
      if x < |st.toks| { assert LinkedOut(st.toks, x); ExtensionLinked(st.toks, next.toks, x); }
    }
  }

  lemma ExtensionLinked(a: seq<Token>, b: seq<Token>, x: nat)
    requires WfToks(a) && WfToks(b) && Extends(a, b) && x < |a| && LinkedOut(a, x)
    ensures LinkedOut(b, x)
  {
    SameAncestors(b, a, a[x].parent);
    SameOpen(b[..x], a[..x]);
  }

  lemma SameOpen(a: seq<Token>, b: seq<Token>)
    requires |a| == |b| && forall k :: 0 <= k < |a| ==> IsOpen(a[k]) == IsOpen(b[k])
    ensures LastOpen(a) == LastOpen(b)
  {
  }

  /** Closing the last open token makes the one around it the last open one. */
  lemma OpenAfterClose(toks: seq<Token>, end: nat)
    requires LastOpen(toks) != -1
    ensures LastOpen(CloseToken(toks, LastOpen(toks), end)) == LastOpen(toks[..LastOpen(toks)])
  {
    var x := LastOpen(toks);
    var closed := CloseToken(toks, x, end);
    assert forall k :: 0 <= k < x ==> closed[k] == toks[..x][k];
    assert forall k :: x <= k < |closed| ==> !IsOpen(closed[k]);
  }

  lemma CloseKeepsNested(st: State, end: nat, next: State)
    requires Wf(st) && Nested(st) && LastOpen(st.toks) != -1
    requires next.toks == CloseToken(st.toks, LastOpen(st.toks), end)
    requires next.toksuper == LastOpen(next.toks) || next.toksuper == st.toks[LastOpen(st.toks)].parent
    ensures Wf(next) && Nested(next)
  {
    var x := LastOpen(st.toks);
    assert LinkedOut(st.toks, x);
    OpenAfterClose(st.toks, end);
    AncestorsAfterClose(st.toks, x, end, st.toks[x].parent);
    AncestorsAfterClose(st.toks, x, end, |st.toks| - 1);
    StillLinked(st.toks, x, end);
  }

  lemma StillLinked(toks: seq<Token>, x: nat, end: nat)
    requires WfToks(toks) && x == LastOpen(toks)
    requires forall y {:trigger LinkedOut(toks, y)} :: 0 <= y < |toks| && IsOpen(toks[y]) ==> LinkedOut(toks, y)
    ensures WfToks(CloseToken(toks, x, end))
    ensures var closed := CloseToken(toks, x, end);
      (forall y {:trigger LinkedOut(closed, y)} :: 0 <= y < |closed| && IsOpen(closed[y]) ==> LinkedOut(closed, y))
  {
    var closed := CloseToken(toks, x, end);
    forall y | 0 <= y < |closed| && IsOpen(closed[y]) ensures LinkedOut(closed, y) {
      assert LinkedOut(toks, y);
      CloseLinked(toks, x, end, y);
    }
  }

  lemma CloseLinked(toks: seq<Token>, x: nat, end: nat, y: nat)
    requires WfToks(toks) && y < x < |toks| && LinkedOut(toks, y)
    ensures WfToks(CloseToken(toks, x, end)) && LinkedOut(CloseToken(toks, x, end), y)
  {
    AncestorsAfterClose(toks, x, end, toks[y].parent);
    assert CloseToken(toks, x, end)[..y] == toks[..y];
  }

  /** What one step of either build may do, given that the chains of parents are in order. */
  ghost predicate Stepped(v: Variant, st: State, lex: Lexeme, next: State)
    requires Wf(st)
  {
    next.pos == After(st.pos, lex) &&
    if MakesToken(lex) then
      next.toks == Allocate(st, lex) && next.toksuper == if lex.Open? then |st.toks| else st.toksuper
    else if lex.Close? && LastOpen(st.toks) != -1 then
      next.toks == CloseToken(st.toks, LastOpen(st.toks), next.pos) &&
      next.toksuper == if v == Scan then LastOpen(next.toks) else st.toks[LastOpen(st.toks)].parent
    else
      next.toks == st.toks &&
      next.toksuper == if lex.Colon? then |st.toks| - 1 else if lex.Comma? then SuperAfterComma(v, st) else st.toksuper
  }

  lemma ApplyIsStepped(v: Variant, cap: nat, st: State, lex: Lexeme)
    requires Wf(st) && Nested(st)
    ensures var r := Apply(v, cap, st, lex); r.Go? ==> Stepped(v, st, lex, r.st)
  {
  }

  lemma StepKeepsNested(v: Variant, st: State, lex: Lexeme, next: State)
    requires Wf(st) && Nested(st) && Stepped(v, st, lex, next) && Wf(next)
    ensures Nested(next)
  {
    if MakesToken(lex) { AllocateKeepsNested(st, lex, next); }
    else if lex.Close? && LastOpen(st.toks) != -1 { CloseKeepsNested(st, next.pos, next); }
    else if lex.Comma? { CommaKeepsNested(v, st); }
  }

  lemma CommaKeepsNested(v: Variant, st: State)
    requires Wf(st) && Nested(st)
    ensures Wf(st.(toksuper := SuperAfterComma(v, st))) && Nested(st.(toksuper := SuperAfterComma(v, st)))
  {
    if st.toksuper != -1 && !IsContainer(st.toks[st.toksuper].typ) {
      assert !IsOpen(st.toks[st.toksuper]);
    }
  }

  lemma ApplyKeepsNested(v: Variant, cap: nat, st: State, lex: Lexeme)
    requires Wf(st) && Nested(st) && (lex.Open? ==> IsContainer(lex.typ))
    ensures var r := Apply(v, cap, st, lex);
            r.Go? ==> Stepped(v, st, lex, r.st) && Wf(r.st) && Nested(r.st)
  {
    ApplyIsStepped(v, cap, st, lex);
    ApplyKeepsWf(v, cap, st, lex);
    if Apply(v, cap, st, lex).Go? { StepKeepsNested(v, st, lex, Apply(v, cap, st, lex).st); }
  }

  /** Without a super token nothing is open, so a scan for an open token finds none. */
  lemma AtTopLevelNothingIsOpen(st: State)
    requires Wf(st) && Nested(st) && st.toksuper == -1
    ensures LastOpen(st.toks) == -1
  {
  }

  // ---------------------------------------------------------------------- spans

  ghost predicate IsClosed(t: Token) { t.end != -1 }

  /** Starts increase with the index, and nothing read so far lies past `pos`. */
  ghost predicate Ordered(st: State) {
    && (forall i :: 0 <= i < |st.toks| ==>
          0 <= st.toks[i].start < st.pos && (IsClosed(st.toks[i]) ==> st.toks[i].start <= st.toks[i].end <= st.pos))
    && (forall i, j :: 0 <= i < j < |st.toks| ==> st.toks[i].start < st.toks[j].start)
  }

  /** `b` starts after `a`: it lies inside `a` or after it. An open token reaches to infinity. */
  ghost predicate NestedOrAfter(a: Token, b: Token) {
    IsClosed(a) ==> a.end <= b.start || (IsClosed(b) && b.end <= a.end)
  }

  ghost predicate Laminar(toks: seq<Token>) {
    forall i, j :: 0 <= i < j < |toks| ==> NestedOrAfter(toks[i], toks[j])
  }

  ghost predicate Spans(st: State) {
    Ordered(st) && Laminar(st.toks)
  }

  lemma AllocateKeepsSpans(st: State, lex: Lexeme, super: int)
    requires Wf(st) && Spans(st) && MakesToken(lex) && Reads(st.pos, lex)
    ensures Spans(State(After(st.pos, lex), super, Allocate(st, lex)))
  {
    var toks := Allocate(st, lex);
    var n := |st.toks|;
    forall i | 0 <= i < n ensures toks[i].start == st.toks[i].start && toks[i].end == st.toks[i].end {}
    forall i, j | 0 <= i < j < |toks| ensures NestedOrAfter(toks[i], toks[j]) {
      if j < n { assert NestedOrAfter(st.toks[i], st.toks[j]); }
    }
  }

  lemma CloseKeepsSpans(st: State, super: int)
    requires Wf(st) && Spans(st) && LastOpen(st.toks) != -1
    ensures Spans(State(st.pos + 1, super, CloseToken(st.toks, LastOpen(st.toks), st.pos + 1)))
  {
    var x := LastOpen(st.toks);
    var closed := CloseToken(st.toks, x, st.pos + 1);
    forall i, j | 0 <= i < j < |closed| ensures NestedOrAfter(closed[i], closed[j]) {
      assert NestedOrAfter(st.toks[i], st.toks[j]);
      if i == x { assert !IsOpen(st.toks[j]); }
    }
  }

  // ---------------------------------------------------------------------- sizes

  /** How many tokens were allocated while `k` was the super token. */
  ghost function Children(toks: seq<Token>, k: int): nat {
    if toks == [] then 0
    else Children(toks[..|toks| - 1], k) + (if toks[|toks| - 1].parent == k then 1 else 0)
  }

  ghost predicate SizesAreChildren(toks: seq<Token>) {
    forall k :: 0 <= k < |toks| ==> toks[k].size == Children(toks, k)
  }

  lemma {:induction false} SameChildren(a: seq<Token>, b: seq<Token>, k: int)
    requires |a| == |b| && forall i :: 0 <= i < |a| ==> a[i].parent == b[i].parent
    ensures Children(a, k) == Children(b, k)
    decreases |a|
  {
    if a != [] { SameChildren(a[..|a| - 1], b[..|b| - 1], k); }
  }

  lemma {:induction false} NoLaterChildren(toks: seq<Token>, k: nat)
    requires WfToks(toks) && k >= |toks|
    ensures Children(toks, k) == 0
    decreases |toks|
  {
    if toks != [] {
      assert WfToks(toks[..|toks| - 1]);
      NoLaterChildren(toks[..|toks| - 1], k);
    }
  }

  lemma AllocateKeepsSizes(st: State, lex: Lexeme)
    requires Wf(st) && SizesAreChildren(st.toks)
    ensures SizesAreChildren(Allocate(st, lex))
  {
    var toks := Allocate(st, lex);
    var n := |st.toks|;
    assert toks[..n] == Bump(st.toks, st.toksuper);
    forall k | 0 <= k <= n ensures toks[k].size == Children(toks, k) {
      SameChildren(toks[..n], st.toks, k);
      if k == n { NoLaterChildren(st.toks, n); }
    }
  }

  lemma CloseKeepsSizes(toks: seq<Token>, x: nat, end: int)
    requires x < |toks| && SizesAreChildren(toks)
    ensures SizesAreChildren(CloseToken(toks, x, end))
  {
    forall k ensures Children(CloseToken(toks, x, end), k) == Children(toks, k) {
      SameChildren(CloseToken(toks, x, end), toks, k);
    }
  }

  ghost function SizesUpTo(toks: seq<Token>, n: nat): int
    requires n <= |toks|
  {
    if n == 0 then 0 else SizesUpTo(toks, n - 1) + toks[n - 1].size
  }

  /** How many tokens have a parent below `n`. */
  ghost function Adopted(toks: seq<Token>, n: nat): nat {
    if toks == [] then 0
    else Adopted(toks[..|toks| - 1], n) + (if 0 <= toks[|toks| - 1].parent < n then 1 else 0)
  }

  lemma {:induction false} AdoptedMore(toks: seq<Token>, n: nat)
    ensures Adopted(toks, n + 1) == Adopted(toks, n) + Children(toks, n)
    decreases |toks|
  {
    if toks != [] { AdoptedMore(toks[..|toks| - 1], n); }
  }

  lemma {:induction false} SizesAddUp(toks: seq<Token>, n: nat)
    requires SizesAreChildren(toks) && n <= |toks|
    ensures SizesUpTo(toks, n) == Adopted(toks, n)
    decreases n
  {
    if n == 0 {
      NobodyAdopted(toks);
    } else {
      SizesAddUp(toks, n - 1);
      AdoptedMore(toks, n - 1);
    }
  }

  lemma {:induction false} NobodyAdopted(toks: seq<Token>)
    ensures Adopted(toks, 0) == 0
    decreases |toks|
  {
    if toks != [] { NobodyAdopted(toks[..|toks| - 1]); }
  }

  lemma {:induction false} OthersAreRoots(toks: seq<Token>, n: nat)
    requires WfToks(toks) && |toks| <= n
    ensures Adopted(toks, n) + Children(toks, -1) == |toks|
    decreases |toks|
  {
    if toks != [] {
      var some := toks[..|toks| - 1];
      assert forall k :: 0 <= k < |some| ==> some[k] == toks[k];
      OthersAreRoots(some, n);
    }
  }

  // ------------------------------------------------------------- the invariant

  ghost predicate Inv(st: State) {
    Wf(st) && Nested(st) && Spans(st) && SizesAreChildren(st.toks)
  }

  lemma StepKeepsSpans(v: Variant, st: State, lex: Lexeme, next: State)
    requires Wf(st) && Spans(st) && Reads(st.pos, lex) && Stepped(v, st, lex, next)
    ensures Spans(next)
  {
    if MakesToken(lex) { AllocateKeepsSpans(st, lex, next.toksuper); }
    else if lex.Close? && LastOpen(st.toks) != -1 { CloseKeepsSpans(st, next.toksuper); }
  }

  lemma StepKeepsSizes(v: Variant, st: State, lex: Lexeme, next: State)
    requires Wf(st) && SizesAreChildren(st.toks) && Stepped(v, st, lex, next)
    ensures SizesAreChildren(next.toks)
  {
    if MakesToken(lex) { AllocateKeepsSizes(st, lex); }
    else if lex.Close? && LastOpen(st.toks) != -1 { CloseKeepsSizes(st.toks, LastOpen(st.toks), next.pos); }
  }

  lemma ApplyKeepsInv(v: Variant, cap: nat, st: State, lex: Lexeme)
    requires Inv(st) && Reads(st.pos, lex)
    ensures Apply(v, cap, st, lex).Go? ==> Inv(Apply(v, cap, st, lex).st)
  {
    if Apply(v, cap, st, lex).Go? {
      var next := Apply(v, cap, st, lex).st;
      ApplyKeepsNested(v, cap, st, lex);
      StepKeepsSpans(v, st, lex, next);
      StepKeepsSizes(v, st, lex, next);
    }
  }

  /** One turn of a call that has a defined end. */
  lemma TurnKeepsNested(v: Variant, js: string, cap: nat, st: State)
    requires Wf(st) && Nested(st) && !AtEnd(js, st.pos) && Run(v, js, cap, st).why != Stray
    ensures var a := Apply(v, cap, st, LexemeAt(js, st.pos));
      && a != Halt(Stray) && a != Halt(EndOfText)
      && (a.Go? ==> Wf(a.st) && Nested(a.st) && st.pos < a.st.pos <= |js|
                    && Run(v, js, cap, a.st) == Run(v, js, cap, st)
                    && |a.st.toks| == |st.toks| + (if MakesToken(LexemeAt(js, st.pos)) then 1 else 0))
      && (a.Halt? ==> Run(v, js, cap, st) == Result(st, a.why))
  {
    RunStep(v, js, cap, st);
    ApplyKeepsNested(v, cap, st, LexemeAt(js, st.pos));
  }

  /** Every call keeps the invariant, whatever the text, the room and the outcome. */
  lemma {:induction false} RunKeepsInv(v: Variant, js: string, cap: nat, st: State)
    requires Inv(st)
    ensures Inv(Run(v, js, cap, st).st)
    decreases |js| - st.pos
  {
    if !AtEnd(js, st.pos) {
      var lex := LexemeAt(js, st.pos);
      RunStep(v, js, cap, st);
      ApplyKeepsInv(v, cap, st, lex);
      match Apply(v, cap, st, lex)
      case Go(next) => RunKeepsInv(v, js, cap, next);
      case Halt(_) =>
    }
  }

  lemma InitInv()
    ensures Inv(INIT)
  {
  }
}
