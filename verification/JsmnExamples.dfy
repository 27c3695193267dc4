/**
 * Short texts on which jsmn does not do what one would expect: the inputs
 * behind the exact conditions of the other modules.
 */
module JsmnExamples {
  import opened Memory
  import opened JsmnModel
  import opened JsmnInvariants
  import opened JsmnResume
  import opened JsmnVariants
  import opened JsmnSizes

  function Number(from: nat, to: nat): Token { Token(Primitive, from, to, 0, -1) }

  /** A number of one digit, at the end of the text or before a sign. */
  lemma DigitIsRead(v: Variant, js: string, cap: nat, st: State)
    requires Wf(st) && st.pos < |js| && IsDigit(js[st.pos]) && |st.toks| < cap && st.toksuper == -1
    requires st.pos + 1 == |js| || EndsPrimitive(js[st.pos + 1])
    ensures Run(v, js, cap, st) == Run(v, js, cap, State(st.pos + 1, -1, st.toks + [Number(st.pos, st.pos + 1)]))
  {
    assert PrimitiveEnd(js, st.pos + 1) == st.pos + 1;
    assert LexemeAt(js, st.pos) == Bare(st.pos + 1);
    RunStep(v, js, cap, st);
  }

  /** The parser after the text `1`. */
  function AfterOne(): State { State(1, -1, [Number(0, 1)]) }

  lemma OneIsRead(v: Variant, js: string, cap: nat)
    requires js != "" && js[0] == '1' && (|js| == 1 || EndsPrimitive(js[1])) && cap > 0
    ensures Run(v, js, cap, INIT) == Run(v, js, cap, AfterOne())
  {
    DigitIsRead(v, js, cap, INIT);
    assert [] + [Number(0, 1)] == [Number(0, 1)];
  }

  // ------------------------------------------------------- `1,2` in both builds

  lemma CommaIsPassed(js: string, cap: nat, st: State)
    requires Wf(st) && !AtEnd(js, st.pos) && js[st.pos] == ',' && st.toksuper == -1
    ensures Run(Scan, js, cap, st) == Run(Scan, js, cap, st.(pos := st.pos + 1))
  {
    assert LexemeAt(js, st.pos) == Comma;
    assert Apply(Scan, cap, st, Comma) == Go(st.(pos := st.pos + 1));
    RunStep(Scan, js, cap, st);
  }

  lemma CommaStrays(js: string, cap: nat, st: State)
    requires Wf(st) && !AtEnd(js, st.pos) && js[st.pos] == ',' && st.toksuper == -1
    ensures Run(Links, js, cap, st) == Result(st, Stray)
  {
    RunStep(Links, js, cap, st);
  }

  /** There is no super token at the comma: the default build goes on all the same, the other one strays. */
  lemma OneCommaTwo(js: string)
    requires js == "1,2"
    ensures Run(Links, js, 2, INIT) == Result(AfterOne(), Stray)
    ensures Run(Scan, js, 2, INIT) == Result(State(3, -1, [Number(0, 1)] + [Number(2, 3)]), EndOfText)
  {
    OneIsRead(Links, js, 2);
    OneIsRead(Scan, js, 2);
    CommaStrays(js, 2, AfterOne());
    CommaIsPassed(js, 2, AfterOne());
    DigitIsRead(Scan, js, 2, AfterOne().(pos := 2));
  }

  // ------------------------------------------------------- `1`, and then `12`

  lemma TwelveIsRead(v: Variant, js: string)
    requires js == "12"
    ensures Run(v, js, 2, INIT) == Result(State(2, -1, [Number(0, 2)]), EndOfText)
  {
    assert PrimitiveEnd(js, 2) == 2;
    assert PrimitiveEnd(js, 1) == 2;
    assert LexemeAt(js, 0) == Bare(2);
    assert Apply(v, 2, INIT, Bare(2)) == Go(State(2, -1, [Number(0, 2)]));
    RunStep(v, js, 2, INIT);
  }

  /** Cut after its first digit, a number becomes two. */
  lemma OneThenTwelve(v: Variant, js: string, more: string)
    requires js == "1" && more == "12"
    ensures Run(v, js, 2, INIT) == Result(AfterOne(), EndOfText) && SplitsPrimitive(AfterOne(), js, more)
    ensures Run(v, more, 2, AfterOne()) == Result(State(2, -1, [Number(0, 1)] + [Number(1, 2)]), EndOfText)
    ensures Run(v, more, 2, INIT) == Result(State(2, -1, [Number(0, 2)]), EndOfText)
  {
    OneIsRead(v, js, 2);
    DigitIsRead(v, more, 2, AfterOne());
    TwelveIsRead(v, more);
  }

  // ------------------------------------------------------- `1]` in both builds

  lemma BracketIsPassed(js: string, cap: nat, st: State)
    requires Wf(st) && Nested(st) && LastOpen(st.toks) == -1 && st.toks != []
    requires !AtEnd(js, st.pos) && js[st.pos] == ']'
    ensures Run(Links, js, cap, st) == Run(Links, js, cap, st.(pos := st.pos + 1))
  {
    RunStep(Links, js, cap, st);
  }

  /** The default build reports the bracket, the other one counts one token. */
  lemma OneClosed(js: string)
    requires js == "1]"
    ensures Run(Scan, js, 1, INIT) == Result(AfterOne(), Inval)
    ensures Run(Links, js, 1, INIT) == Result(AfterOne().(pos := 2), EndOfText)
    ensures !SameEnd(js, 1)
  {
    OneIsRead(Scan, js, 1);
    OneIsRead(Links, js, 1);
    assert LastOpen([Number(0, 1)][..0]) == -1;
    BracketStops(js, 1, AfterOne());
    BracketIsPassed(js, 1, AfterOne());
  }

  // ------------------------------------------------------- `"":[]`, super tokens

  /** A key and an array that has just been opened. */
  function InArray(): State { State(4, 1, [Token(String, 1, 1, 1, -1)] + [Token(Array, 3, -1, 0, 0)]) }

  /** After the key. */
  function AfterKey(): State { State(2, -1, [Token(String, 1, 1, 0, -1)]) }

  /** A text that starts with an empty key and an array. */
  predicate StartsWithArray(js: string, cap: nat) { cap >= 2 && "\"\":[]" <= js }

  lemma KeyIsRead(v: Variant, js: string, cap: nat)
    requires StartsWithArray(js, cap)
    ensures Run(v, js, cap, INIT) == Run(v, js, cap, AfterKey())
  {
    assert StringLexeme(js, 1) == Quoted(1) && LexemeAt(js, 0) == Quoted(1);
    assert Apply(v, cap, INIT, Quoted(1)) == Go(AfterKey());
    RunStep(v, js, cap, INIT);
  }

  lemma ColonIsRead(v: Variant, js: string, cap: nat)
    requires StartsWithArray(js, cap)
    ensures Run(v, js, cap, AfterKey()) == Run(v, js, cap, AfterKey().(pos := 3, toksuper := 0))
  {
    assert js[2] == ':';
    RunStep(v, js, cap, AfterKey());
  }

  lemma BracketIsRead(v: Variant, js: string, cap: nat)
    requires StartsWithArray(js, cap)
    ensures Wf(InArray()) && Run(v, js, cap, AfterKey().(pos := 3, toksuper := 0)) == Run(v, js, cap, InArray())
  {
    var st := AfterKey().(pos := 3, toksuper := 0);
    assert js[3] == '[';
    assert Apply(v, cap, st, Open(Array)) == Go(InArray());
    RunStep(v, js, cap, st);
  }

  /** The key and the array, closed, with the super token of either build. */
  function Closed(v: Variant): State {
    State(5, if v == Scan then -1 else 0, CloseToken(InArray().toks, 1, 5))
  }

  lemma ArrayIsClosed(v: Variant, js: string, cap: nat)
    requires StartsWithArray(js, cap)
    ensures Wf(InArray()) && Wf(Closed(v)) && Run(v, js, cap, InArray()) == Run(v, js, cap, Closed(v))
  {
    assert js[4] == ']';
    assert Apply(v, cap, InArray(), Close(Array)) == Go(Closed(v));
    RunStep(v, js, cap, InArray());
  }

  lemma ArrayIsRead(v: Variant, js: string, cap: nat)
    requires StartsWithArray(js, cap)
    ensures Wf(Closed(v)) && Run(v, js, cap, INIT) == Run(v, js, cap, Closed(v))
  {
    KeyIsRead(v, js, cap);
    ColonIsRead(v, js, cap);
    BracketIsRead(v, js, cap);
    ArrayIsClosed(v, js, cap);
  }

  /** Once the array is closed the default build has no super token, the other one has the key. */
  lemma SupersDiffer(js: string)
    requires js == "\"\":[]"
    ensures Run(Scan, js, 2, INIT) == Result(Closed(Scan), EndOfText)
    ensures Run(Links, js, 2, INIT) == Result(Closed(Links), EndOfText)
    ensures Closed(Scan).toksuper == -1 && Closed(Links).toksuper == 0
  {
    ArrayIsRead(Scan, js, 2);
    ArrayIsRead(Links, js, 2);
  }

  // ------------------------------------------------------- `"":[]""`, sizes

  lemma StringIsCounted(v: Variant, js: string)
    requires js == "\"\":[]\"\""
    ensures Wf(Closed(v))
    ensures var c := Closed(v);
      Run(v, js, 3, c) == Result(State(7, c.toksuper, Bump(c.toks, c.toksuper) + [Token(String, 6, 6, 0, c.toksuper)]),
                                 EndOfText)
    ensures Run(v, js, 3, Closed(v)).st.toks[0].size == if v == Scan then 1 else 2
  {
    var c := Closed(v);
    assert StringLexeme(js, 6) == Quoted(6) && LexemeAt(js, 5) == Quoted(6);
    RunStep(v, js, 3, c);
  }

  /** A string that comes then is counted in the key by one build only. */
  lemma SizesDiffer(js: string)
    requires js == "\"\":[]\"\""
    ensures SameEnd(js, 3) && !AlikeAtEnd(js, 3)
    ensures Run(Scan, js, 3, INIT).st.toks[0].size == 1 && Run(Links, js, 3, INIT).st.toks[0].size == 2
  {
    ArrayIsRead(Scan, js, 3);
    ArrayIsRead(Links, js, 3);
    StringIsCounted(Scan, js);
    StringIsCounted(Links, js);
  }
}
