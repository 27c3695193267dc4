/**
 * Counting mode (no token array) tells how many tokens filling mode needs.
 */
module JsmnCount {
  import opened JsmnModel

  /** A count that is already under way only shifts the result. */
  lemma {:induction false} CountRunShifts(js: string, pos: nat, n: nat)
    ensures CountRun(js, pos, n) == CountRun(js, pos, 0).(n := CountRun(js, pos, 0).n + n)
    decreases |js| - pos
  {
    if !AtEnd(js, pos) {
      var lex := LexemeAt(js, pos);
      if lex != Bad && lex != Cut {
        var one := if MakesToken(lex) then 1 else 0;
        CountRunShifts(js, After(pos, lex), n + one);
        CountRunShifts(js, After(pos, lex), one);
      }
    }
  }

  /** Counting takes a step wherever a lexeme is neither bad nor cut off. */
  lemma CountStep(js: string, pos: nat)
    requires !AtEnd(js, pos) && LexemeAt(js, pos) != Bad && LexemeAt(js, pos) != Cut
    ensures var lex := LexemeAt(js, pos); var c := CountRun(js, After(pos, lex), 0);
            CountRun(js, pos, 0) == c.(n := c.n + if MakesToken(lex) then 1 else 0)
  {
    CountRunShifts(js, After(pos, LexemeAt(js, pos)), if MakesToken(LexemeAt(js, pos)) then 1 else 0);
  }

  /** Filling stops where counting does, or earlier: for lack of tokens or at a bracket. */
  lemma {:induction false} CountFollowsRun(v: Variant, js: string, cap: nat, st: State)
    requires Wf(st)
    ensures var r, c := Run(v, js, cap, st), CountRun(js, st.pos, 0);
      && (r.why == EndOfText
        ==> c == Count(r.st.pos, |r.st.toks| - |st.toks|, EndOfText) && (c.n > 0 ==> |r.st.toks| <= cap))
      && (r.why == NoMem ==> |r.st.toks| >= cap && |st.toks| + c.n > |r.st.toks|)
    decreases |js| - st.pos
  {
    if !AtEnd(js, st.pos) {
      var lex := LexemeAt(js, st.pos);
      RunStep(v, js, cap, st);
      if lex != Bad && lex != Cut { CountStep(js, st.pos); }
      match Apply(v, cap, st, lex)
      case Halt(_) =>
      case Go(next) => CountFollowsRun(v, js, cap, next);
    }
  }

  /** If filling succeeds, counting the same text returns the same number: all the tokens there are. */
  lemma FillingSuccessIsCounted(v: Variant, js: string, cap: nat)
    requires Run(v, js, cap, INIT).why != Stray && ReturnCode(INIT, Run(v, js, cap, INIT)) >= 0
    ensures var r := Run(v, js, cap, INIT);
      CountCode(CountRun(js, 0, 0)) == ReturnCode(INIT, r) == |r.st.toks|
  {
    CountFollowsRun(v, js, cap, INIT);
  }

  /** A count of n is exactly the room needed: with n tokens there is enough, with fewer no call succeeds. */
  lemma CountIsTheRoomNeeded(v: Variant, js: string, cap: nat)
    requires CountCode(CountRun(js, 0, 0)) >= 0 && Run(v, js, cap, INIT).why != Stray
    ensures var n, code := CountCode(CountRun(js, 0, 0)), ReturnCode(INIT, Run(v, js, cap, INIT));
      && (cap >= n ==> code != NOMEM)
      && (cap < n ==> code < 0)
      && (code >= 0 ==> code == n)
  {
    CountFollowsRun(v, js, cap, INIT);
  }
}
