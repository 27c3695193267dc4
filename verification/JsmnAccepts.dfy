/**
 * Which texts jsmn accepts: those made of well-formed pieces, with few enough
 * tokens, whose brackets match.
 */
module JsmnAccepts {
  import opened Memory
  import opened JsmnModel
  import opened JsmnInvariants
  import opened JsmnPieces
  import opened JsmnBrackets
  import opened JsmnCommas

  /** A call from a fresh parser returns a count. */
  ghost predicate Accepts(v: Variant, js: string, cap: nat) {
    var r := Run(v, js, cap, INIT);
    r.why != Stray && ReturnCode(INIT, r) >= 0
  }

  /**
   * The pieces spell the text, there is room for their tokens, and their brackets match. The build with parent
   * links passes over closing brackets that come when nothing is open, once there is a token, but has to find a
   * super token at every comma.
   */
  ghost predicate Acceptable(v: Variant, ps: seq<Piece>, js: string, cap: nat) {
    && Spells(ps, js) && TokenCount(ps) <= cap && Balanced(Noticed(v, 0, BracketsOf(ps)))
    && (v == Links ==> StartsWithToken(ps) && AllAnswered(v, OpenLedger(v), ps))
  }

  /** Feeding the pieces of a text ends without an open bracket exactly if they are acceptable. */
  lemma FedIsAcceptable(v: Variant, ps: seq<Piece>, js: string, cap: nat)
    requires Spells(ps, js)
    ensures var f := Feed(v, cap, INIT, ps);
      && (f.why == EndOfText && LastOpen(f.st.toks) == -1 <==> Acceptable(v, ps, js, cap))
      && (f.why == EndOfText ==> |f.st.toks| == TokenCount(ps))
  {
    InitInv();
    var f := Feed(v, cap, INIT, ps);
    FeedIsFollowed(v, cap, INIT, ps);
    FeedIsBooked(v, cap, INIT, ps);
    FollowIsMachine(v, START, ps, 0);
    BalancedIffMachineAccepts(Noticed(v, 0, BracketsOf(ps)));
    LastOpenIsTop(f.st.toks, 0);
    TypesOfLength(OpenMarks(f.st.toks));
  }

  lemma ReadWhole(v: Variant, js: string, cap: nat) returns (ps: seq<Piece>)
    requires NulFree(js) && Run(v, js, cap, INIT).why == EndOfText
    ensures Spells(ps, js)
  {
    RunStops(v, js, cap, INIT);
    ps := RunReads(v, js, cap, INIT);
    assert js[0..|js|] == js;
  }

  /**
   * A fresh parser of either build accepts a text exactly when it has acceptable pieces; it returns
   * their token count.
   */
  lemma AcceptsExactly(v: Variant, js: string, cap: nat)
    requires NulFree(js)
    ensures Accepts(v, js, cap) <==> exists ps :: Acceptable(v, ps, js, cap)
    ensures forall ps :: Acceptable(v, ps, js, cap) ==>
              Accepts(v, js, cap) && ReturnCode(INIT, Run(v, js, cap, INIT)) == TokenCount(ps)
  {
    if Accepts(v, js, cap) {
      var ps := ReadWhole(v, js, cap);
      assert js[0..] == js;
      RunIsFeed(v, js, cap, INIT, ps);
      FedIsAcceptable(v, ps, js, cap);
    }
    forall ps | Acceptable(v, ps, js, cap)
      ensures Accepts(v, js, cap) && ReturnCode(INIT, Run(v, js, cap, INIT)) == TokenCount(ps)
    {
      assert js[0..] == js;
      RunIsFeed(v, js, cap, INIT, ps);
      FedIsAcceptable(v, ps, js, cap);
    }
  }
}
