/**
 * A call that stops for lack of tokens or of text leaves the parser where a later
 * call, on more room or on more text, carries on as if it had never stopped. The
 * one exception is a text cut in the middle of a primitive.
 */
module JsmnResume {
  import opened JsmnModel
  import opened JsmnInvariants

  // ------------------------------------------------------- lexemes and cuts

  lemma {:induction false} PrimitiveOnMoreText(js: string, more: string, i: nat)
    requires js <= more && i <= |js|
    ensures PrimitiveEnd(js, i) < |js| ==> PrimitiveEnd(more, i) == PrimitiveEnd(js, i)
    ensures PrimitiveEnd(js, i) == |js| ==> PrimitiveEnd(more, i) == PrimitiveEnd(more, |js|)
    decreases |js| - i
  {
    if !AtEnd(js, i) && !EndsPrimitive(js[i]) && 32 <= js[i] as int < 127 {
      PrimitiveOnMoreText(js, more, i + 1);
    }
  }

  lemma {:induction false} HexOnMoreText(js: string, more: string, i: nat, n: nat)
    requires js <= more
    ensures var j := HexEnd(js, i, n); (j == -1 || j < |js|) ==> HexEnd(more, i, n) == j
    decreases n
  {
    if n > 0 && !AtEnd(js, i) && IsHex(js[i]) { HexOnMoreText(js, more, i + 1, n - 1); }
  }

  lemma {:induction false} StringOnMoreText(js: string, more: string, i: nat)
    requires js <= more
    ensures StringLexeme(js, i) != Cut ==> StringLexeme(more, i) == StringLexeme(js, i)
    decreases |js| - i
  {
    if AtEnd(js, i) || js[i] == '\"' {
    } else if js[i] == '\\' && i + 1 < |js| {
      if IsEscape(js[i + 1]) {
        StringOnMoreText(js, more, i + 2);
      } else if js[i + 1] == 'u' {
        HexOnMoreText(js, more, i + 2, 4);
        var j := HexEnd(js, i + 2, 4);
        if j != -1 { StringOnMoreText(js, more, j); }
      }
    } else {
      StringOnMoreText(js, more, i + 1);
    }
  }

  /** Only an unfinished string and a primitive at the very end depend on what follows. */
  lemma LexemeOnMoreText(js: string, more: string, pos: nat)
    requires js <= more && !AtEnd(js, pos)
    ensures var lex := LexemeAt(js, pos); lex != Cut && lex != Bare(|js|) ==> LexemeAt(more, pos) == lex
    ensures LexemeAt(js, pos) == Bare(|js|) ==> LexemeAt(more, pos) == PrimitiveLexeme(more, |js|)
  {
    StringOnMoreText(js, more, pos + 1);
    PrimitiveOnMoreText(js, more, pos);
  }

  /** The text goes on with a character that the last primitive would have taken. */
  predicate GoesOn(more: string, at: nat) {
    !AtEnd(more, at) && !EndsPrimitive(more[at])
  }

  /** A caller can see it: the last token is a primitive that runs up to the end of a text that goes on. */
  predicate SplitsPrimitive(st: State, js: string, more: string) {
    |st.toks| > 0 && st.toks[|st.toks| - 1].typ == Primitive && st.toks[|st.toks| - 1].end == |js| && GoesOn(more, |js|)
  }

  // --------------------------------------------------------- tokens persist

  /** Every token of `a` is in `b`, grown or closed perhaps but never altered otherwise. */
  ghost predicate Persists(a: seq<Token>, b: seq<Token>) {
    |a| <= |b| && forall k :: 0 <= k < |a| ==>
      b[k].typ == a[k].typ && b[k].start == a[k].start && (IsClosed(a[k]) ==> b[k].end == a[k].end)
  }

  lemma {:induction false} RunPersists(v: Variant, js: string, cap: nat, st: State)
    requires Wf(st) && Nested(st)
    ensures Persists(st.toks, Run(v, js, cap, st).st.toks)
    decreases |js| - st.pos
  {
    if !AtEnd(js, st.pos) {
      RunStep(v, js, cap, st);
      var lex := LexemeAt(js, st.pos);
      match Apply(v, cap, st, lex)
      case Halt(_) =>
      case Go(next) =>
        ApplyKeepsNested(v, cap, st, lex);
        RunPersists(v, js, cap, next);
        StepPersists(v, st, lex, next);
    }
  }

  lemma StepPersists(v: Variant, st: State, lex: Lexeme, next: State)
    requires Wf(st) && Stepped(v, st, lex, next)
    ensures Persists(st.toks, next.toks)
  {
  }

  // ------------------------------------------------------------- resumption

  lemma SplitRunsDiffer(v: Variant, js: string, cap: nat, more: string, cap': nat, st: State, next: State)
    requires Wf(st) && Nested(st) && Wf(next) && Nested(next) && js <= more && cap <= cap'
    requires !AtEnd(js, st.pos) && GoesOn(more, |js|)
    requires LexemeAt(js, st.pos) == Bare(|js|) && Apply(v, cap, st, Bare(|js|)) == Go(next)
    ensures Run(v, more, cap', next).st.toks != Run(v, more, cap', st).st.toks
  {
    var k := |st.toks|;
    RunPersists(v, more, cap', next);
    assert Run(v, more, cap', next).st.toks[k].end == next.toks[k].end == |js|;
    LexemeOnMoreText(js, more, st.pos);
    RunStep(v, more, cap', st);
    var lex := LexemeAt(more, st.pos);
    if lex != Bad {
      var other := Apply(v, cap', st, lex).st;
      ApplyKeepsNested(v, cap', st, lex);
      RunPersists(v, more, cap', other);
      assert Run(v, more, cap', st).st.toks[k].end == other.toks[k].end == lex.end > |js|;
    }
  }

  lemma MoreRoomSameStep(v: Variant, cap: nat, cap': nat, st: State, lex: Lexeme)
    requires Wf(st) && cap <= cap' && Apply(v, cap, st, lex).Go?
    ensures Apply(v, cap', st, lex) == Apply(v, cap, st, lex)
  {
  }

  /** A token that splits is the one a primitive at the end of the text has made. */
  lemma OnlyBareSplits(v: Variant, js: string, more: string, st: State, lex: Lexeme, next: State, last: State)
    requires Wf(st) && Stepped(v, st, lex, next) && Persists(next.toks, last.toks)
    requires |last.toks| == |next.toks| > |st.toks| && SplitsPrimitive(last, js, more)
    requires lex.Open? ==> IsContainer(lex.typ)
    ensures lex == Bare(|js|)
  {
    assert next.toks[|st.toks|].typ == Primitive;
  }

  /**
   * Running on `js`, then on a longer text with more room, is running on the longer text at
   * once, unless the first run added a primitive that the longer text goes on with.
   */
  lemma {:induction false} RunThenRun(v: Variant, js: string, cap: nat, more: string, cap': nat, st: State)
    requires Wf(st) && Nested(st) && js <= more && cap <= cap'
    ensures var first := Run(v, js, cap, st).st;
      if |first.toks| > |st.toks| && SplitsPrimitive(first, js, more)
      then Run(v, more, cap', first).st.toks != Run(v, more, cap', st).st.toks
      else Run(v, more, cap', first) == Run(v, more, cap', st)
    decreases |js| - st.pos
  {
    if !AtEnd(js, st.pos) {
      var lex := LexemeAt(js, st.pos);
      RunStep(v, js, cap, st);
      match Apply(v, cap, st, lex)
      case Halt(_) =>
      case Go(next) =>
        ApplyKeepsNested(v, cap, st, lex);
        if lex == Bare(|js|) && GoesOn(more, |js|) {
          SplitRunsDiffer(v, js, cap, more, cap', st, next);
        } else {
          LexemeOnMoreText(js, more, st.pos);
          MoreRoomSameStep(v, cap, cap', st, lex);
          RunStep(v, more, cap', st);
          RunThenRun(v, js, cap, more, cap', next);
          NoSplitAtFirstStep(v, js, cap, more, st, next);
        }
    }
  }

  lemma NoSplitAtFirstStep(v: Variant, js: string, cap: nat, more: string, st: State, next: State)
    requires Wf(st) && Nested(st) && Wf(next) && Nested(next)
    requires !AtEnd(js, st.pos) && Apply(v, cap, st, LexemeAt(js, st.pos)) == Go(next)
    requires !(LexemeAt(js, st.pos) == Bare(|js|) && GoesOn(more, |js|))
    ensures var last := Run(v, js, cap, next).st;
            SplitsPrimitive(last, js, more) && |last.toks| > |st.toks| ==> |last.toks| > |next.toks|
  {
    var last := Run(v, js, cap, next).st;
    ApplyIsStepped(v, cap, st, LexemeAt(js, st.pos));
    RunPersists(v, js, cap, next);
    if SplitsPrimitive(last, js, more) && |next.toks| == |last.toks| > |st.toks| {
      OnlyBareSplits(v, js, more, st, LexemeAt(js, st.pos), next, last);
    }
  }

  /** The exact condition for stopping once, from a fresh parser. */
  lemma ResumeExactly(v: Variant, js: string, cap: nat, more: string, cap': nat)
    requires js <= more && cap <= cap'
    ensures var first := Run(v, js, cap, INIT).st;
            Run(v, more, cap', first) == Run(v, more, cap', INIT) <==> !SplitsPrimitive(first, js, more)
  {
    RunThenRun(v, js, cap, more, cap', INIT);
  }

  // --------------------------------------------------------- many interruptions

  datatype Call = Call(js: string, cap: nat)

  /** How a call ends that finds the parser in state `st`. */
  ghost function Outcome(v: Variant, c: Call, st: State): (r: Result)
    requires Wf(st)
    ensures Wf(r.st)
  {
    Run(v, c.js, c.cap, st)
  }

  /** Where the parser is after the first `n` calls. */
  ghost function AfterCalls(v: Variant, calls: seq<Call>, n: nat): (st: State)
    requires n <= |calls|
    ensures Wf(st)
  {
    if n == 0 then INIT else Outcome(v, calls[n - 1], AfterCalls(v, calls, n - 1)).st
  }

  /** A call gets the text of the one before and perhaps more, its tokens and perhaps more, and splits no primitive. */
  ghost predicate Resumes(v: Variant, calls: seq<Call>, i: nat)
    requires 0 < i < |calls|
  {
    && calls[i - 1].js <= calls[i].js && calls[i - 1].cap <= calls[i].cap
    && !SplitsPrimitive(AfterCalls(v, calls, i), calls[i - 1].js, calls[i].js)
  }

  ghost predicate EachResumes(v: Variant, calls: seq<Call>) {
    forall i {:trigger Resumes(v, calls, i)} :: 0 < i < |calls| ==> Resumes(v, calls, i)
  }

  lemma AfterOneMore(v: Variant, calls: seq<Call>, n: nat)
    requires 0 < n <= |calls|
    ensures AfterCalls(v, calls, n) == Outcome(v, calls[n - 1], AfterCalls(v, calls, n - 1)).st
  {
  }

  /** However often a parse is interrupted, each call ends as one call on its arguments would. */
  lemma {:induction false} ResumeManyTimes(v: Variant, calls: seq<Call>, n: nat)
    requires n < |calls| && EachResumes(v, calls)
    ensures Outcome(v, calls[n], AfterCalls(v, calls, n)) == Outcome(v, calls[n], INIT)
    decreases n
  {
    if n > 0 {
      ResumeManyTimes(v, calls, n - 1);
      AfterOneMore(v, calls, n);
      assert Resumes(v, calls, n);
      ResumeOnce(v, calls[n - 1], calls[n], AfterCalls(v, calls, n));
    }
  }

  lemma ResumeOnce(v: Variant, c: Call, d: Call, st: State)
    requires c.js <= d.js && c.cap <= d.cap && st == Outcome(v, c, INIT).st && !SplitsPrimitive(st, c.js, d.js)
    ensures Wf(st) && Outcome(v, d, st) == Outcome(v, d, INIT)
  {
    ResumeExactly(v, c.js, c.cap, d.js, d.cap);
  }

  /** The one thing a resumed call does not recover: it reports the tokens of its own call only. */
  lemma ResumedCount(v: Variant, calls: seq<Call>, n: nat)
    requires n < |calls| && EachResumes(v, calls)
    requires Outcome(v, calls[n], INIT).why != Stray
    ensures var before := AfterCalls(v, calls, n);
      && Outcome(v, calls[n], before).why != Stray
      && var once := ReturnCode(INIT, Outcome(v, calls[n], INIT));
         ReturnCode(before, Outcome(v, calls[n], before)) == if once < 0 then once else once - |before.toks|
  {
    ResumeManyTimes(v, calls, n);
  }

  // ------------------------------------------------- what holds in every state

  /** Whatever the calls were, growing or not. */
  lemma {:induction false} CallsKeepInv(v: Variant, calls: seq<Call>, n: nat)
    requires n <= |calls|
    ensures Inv(AfterCalls(v, calls, n))
  {
    if n == 0 {
      InitInv();
    } else {
      CallsKeepInv(v, calls, n - 1);
      RunKeepsInv(v, calls[n - 1].js, calls[n - 1].cap, AfterCalls(v, calls, n - 1));
    }
  }

  /**
   * In every state that calls can lead to: inside a bracket there is a super token to read, without
   * one nothing is open, and the chain of parents leads to the token the backward scan finds.
   */
  lemma InEveryState(v: Variant, calls: seq<Call>, n: nat)
    requires n <= |calls|
    ensures var st := AfterCalls(v, calls, n);
      && (LastOpen(st.toks) != -1 ==> 0 <= st.toksuper < |st.toks|)
      && (st.toksuper == -1 ==> LastOpen(st.toks) == -1)
      && OpenAncestor(st.toks, |st.toks| - 1) == LastOpen(st.toks)
  {
    CallsKeepInv(v, calls, n);
  }

  /** And the sizes add up to the tokens that were allocated under a super token. */
  lemma SizesCountTheRest(v: Variant, calls: seq<Call>, n: nat)
    requires n <= |calls|
    ensures var toks := AfterCalls(v, calls, n).toks; SizesUpTo(toks, |toks|) + Children(toks, -1) == |toks|
  {
    CallsKeepInv(v, calls, n);
    var toks := AfterCalls(v, calls, n).toks;
    SizesAddUp(toks, |toks|);
    OthersAreRoots(toks, |toks|);
  }
}
