/**
 * The jsmn tokenizer as a step function on parser states: the text is read one
 * lexeme at a time, and each lexeme acts on the tokens allocated so far.
 * The class in JsmnParser.dfy does the same in place and is proved against it.
 */
module JsmnModel {

  datatype TokenType = Primitive | Object | Array | String

  /**
   * A token. Builds with JSMN_PARENT_LINKS store and read `parent`; in the
   * default build nothing reads it and it only records what `toksuper` was
   * when the token was allocated.
   */
  datatype Token = Token(typ: TokenType, start: int, end: int, size: int, parent: int)

  predicate IsOpen(t: Token) { t.start != -1 && t.end == -1 }

  predicate IsContainer(t: TokenType) { t == Array || t == Object }

  /** Scan: the default build. Links: JSMN_PARENT_LINKS. */
  datatype Variant = Scan | Links

  datatype State = State(pos: nat, toksuper: int, toks: seq<Token>)

  const INIT := State(0, -1, [])

  /** What every state reached from `INIT` satisfies and every array access needs. */
  predicate Wf(st: State) {
    -1 <= st.toksuper < |st.toks| && WfToks(st.toks)
  }

  predicate WfToks(toks: seq<Token>) {
    forall k :: 0 <= k < |toks| ==>
      -1 <= toks[k].parent < k && (IsOpen(toks[k]) ==> IsContainer(toks[k].typ))
  }

  // ---------------------------------------------------------------- lexemes

  /** What stands at a position; `end` is the closing quote, or the end of the primitive. */
  datatype Lexeme = Blank | Open(typ: TokenType) | Close(typ: TokenType) | Colon | Comma
                  | Quoted(end: nat) | Bare(end: nat) | Bad | Cut

  predicate AtEnd(js: string, pos: nat) { pos >= |js| || js[pos] == '\0' }

  predicate IsBlank(c: char) { c == '\t' || c == '\r' || c == '\n' || c == ' ' }

  /** The characters that end a primitive outside strict mode. */
  predicate EndsPrimitive(c: char) {
    c == ':' || IsBlank(c) || c == ',' || c == ']' || c == '}'
  }

  /** Where the primitive running at `i` ends, or -1 if it has a character out of range. */
  function PrimitiveEnd(js: string, i: nat): (r: int)
    ensures r == -1 || r >= i
    ensures i <= |js| ==> r <= |js|
    decreases |js| - i
  {
    if AtEnd(js, i) || EndsPrimitive(js[i]) then i
    else if js[i] as int < 32 || js[i] as int >= 127 then -1
    else PrimitiveEnd(js, i + 1)
  }

  predicate IsHex(c: char) { '0' <= c <= '9' || 'A' <= c <= 'F' || 'a' <= c <= 'f' }

  predicate IsEscape(c: char) {
    c == '\"' || c == '/' || c == '\\' || c == 'b' || c == 'f' || c == 'r' || c == 'n' || c == 't'
  }

  /** The position after up to `n` hexadecimal digits, or -1 at another character. */
  function HexEnd(js: string, i: nat, n: nat): (r: int)
    ensures r == -1 || r >= i
    decreases n
  {
    if n == 0 || AtEnd(js, i) then i
    else if IsHex(js[i]) then HexEnd(js, i + 1, n - 1)
    else -1
  }

  /** Reads a string body from `i` on. */
  function StringLexeme(js: string, i: nat): (r: Lexeme)
    ensures r.Quoted? ==> i <= r.end < |js|
    ensures r.Quoted? || r == Bad || r == Cut
    decreases |js| - i
  {
    if AtEnd(js, i) then Cut
    else if js[i] == '\"' then Quoted(i)
    else if js[i] == '\\' && i + 1 < |js| then
      if IsEscape(js[i + 1]) then StringLexeme(js, i + 2)
      else if js[i + 1] == 'u' then
        var j := HexEnd(js, i + 2, 4);
        if j == -1 then Bad else StringLexeme(js, j)
      else Bad
    else StringLexeme(js, i + 1)
  }

  function PrimitiveLexeme(js: string, pos: nat): Lexeme {
    var e := PrimitiveEnd(js, pos);
    if e == -1 then Bad else Bare(e)
  }

  function LexemeAt(js: string, pos: nat): (r: Lexeme)
    requires !AtEnd(js, pos)
    ensures r.Quoted? ==> pos < r.end < |js|
    ensures r.Bare? ==> pos < r.end <= |js|
    ensures r.Open? || r.Close? ==> IsContainer(r.typ)
  {
    var c := js[pos];
    if c == '{' then Open(Object)
    else if c == '[' then Open(Array)
    else if c == '}' then Close(Object)
    else if c == ']' then Close(Array)
    else if c == '\"' then StringLexeme(js, pos + 1)
    else if IsBlank(c) then Blank
    else if c == ':' then Colon
    else if c == ',' then Comma
    else PrimitiveLexeme(js, pos)
  }

  predicate MakesToken(lex: Lexeme) { lex.Open? || lex.Quoted? || lex.Bare? }

  /** The token a lexeme read at `pos` makes. */
  function TypeOf(lex: Lexeme): TokenType {
    if lex.Open? then lex.typ else if lex.Quoted? then String else Primitive
  }

  function StartOf(pos: nat, lex: Lexeme): nat { if lex.Quoted? then pos + 1 else pos }

  function EndOf(lex: Lexeme): int { if lex.Quoted? || lex.Bare? then lex.end else -1 }

  /** Where the lexeme `lex` read at `pos` leaves the position. */
  function After(pos: nat, lex: Lexeme): nat {
    match lex
    case Quoted(end) => end + 1
    case Bare(end) => end
    case _ => pos + 1
  }

  // ------------------------------------------------- actions on the tokens

  /** The last token that has a start but no end yet, or -1. */
  function LastOpen(toks: seq<Token>): (i: int)
    ensures -1 <= i < |toks| && (i >= 0 ==> IsOpen(toks[i]))
    ensures forall k :: i < k < |toks| ==> !IsOpen(toks[k])
  {
    if toks == [] then -1
    else if IsOpen(toks[|toks| - 1]) then |toks| - 1
    else LastOpen(toks[..|toks| - 1])
  }

  /** The nearest open token on the chain of parents that starts at token `k`, or -1. */
  function OpenAncestor(toks: seq<Token>, k: int): (i: int)
    requires WfToks(toks) && -1 <= k < |toks|
    ensures -1 <= i <= k && (i >= 0 ==> IsOpen(toks[i]))
  {
    if k == -1 then -1
    else if IsOpen(toks[k]) then k
    else OpenAncestor(toks, toks[k].parent)
  }

  /** One more child for the super token, if there is one. */
  function Bump(toks: seq<Token>, super: int): seq<Token>
    requires -1 <= super < |toks|
  {
    if super == -1 then toks else toks[super := toks[super].(size := toks[super].size + 1)]
  }

  /** One more token, counted as a child of the super token. */
  function Allocate(st: State, lex: Lexeme): seq<Token>
    requires Wf(st)
  {
    Bump(st.toks, st.toksuper) + [Token(TypeOf(lex), StartOf(st.pos, lex), EndOf(lex), 0, st.toksuper)]
  }

  function CloseToken(toks: seq<Token>, i: nat, end: int): seq<Token>
    requires i < |toks|
  {
    toks[i := toks[i].(end := end)]
  }

  /** Stray: the code reads memory in front of the token array, and what it does next depends on it. */
  datatype Stop = EndOfText | NoMem | Inval | Part | Stray

  datatype Step = Go(st: State) | Halt(why: Stop)

  /** The effect of one lexeme when there is room for `cap` tokens. */
  function Apply(v: Variant, cap: nat, st: State, lex: Lexeme): (r: Step)
    requires Wf(st)
  {
    if MakesToken(lex) then
      if |st.toks| >= cap then Halt(NoMem)
      else Go(State(After(st.pos, lex), if lex.Open? then |st.toks| else st.toksuper, Allocate(st, lex)))
    else
      match lex
      case Close(typ) => ApplyClose(v, st, typ)
      case Colon => Go(State(st.pos + 1, |st.toks| - 1, st.toks))
      case Comma =>
        if v == Links && st.toksuper == -1 then Halt(Stray)
        else Go(st.(pos := st.pos + 1, toksuper := SuperAfterComma(v, st)))
      case Bad => Halt(Inval)
      case Cut => Halt(Part)
      case _ => Go(st.(pos := st.pos + 1))
  }

  /**
   * The super token after a comma. Without one the code takes the type of tokens[-1]: the default
   * build then scans the tokens at most, and finds nothing open; the other build would load a parent
   * from there, and has no successor here.
   */
  function SuperAfterComma(v: Variant, st: State): int
    requires Wf(st)
  {
    if st.toksuper == -1 || IsContainer(st.toks[st.toksuper].typ) then st.toksuper
    else if v == Links then st.toks[st.toksuper].parent
    else if LastOpen(st.toks) == -1 then st.toksuper
    else LastOpen(st.toks)
  }

  function ApplyClose(v: Variant, st: State, typ: TokenType): (r: Step)
    requires Wf(st)
  {
    var i := if v == Scan then LastOpen(st.toks) else OpenAncestor(st.toks, |st.toks| - 1);
    if i == -1 then
      // only the default build reports a bracket that closes nothing, once it has a token
      if v == Scan || st.toks == [] then Halt(Inval) else Go(st.(pos := st.pos + 1))
    else if st.toks[i].typ != typ then Halt(Inval)
    else
      var toks := CloseToken(st.toks, i, st.pos + 1);
      Go(State(st.pos + 1, if v == Scan then LastOpen(toks) else st.toks[i].parent, toks))
  }

  lemma ApplyMoves(v: Variant, cap: nat, st: State, lex: Lexeme)
    requires Wf(st)
    ensures Apply(v, cap, st, lex).Go? ==> Apply(v, cap, st, lex).st.pos == After(st.pos, lex)
  {
  }

  lemma ApplyKeepsWf(v: Variant, cap: nat, st: State, lex: Lexeme)
    requires Wf(st) && (lex.Open? ==> IsContainer(lex.typ))
    ensures var r := Apply(v, cap, st, lex); r.Go? ==> Wf(r.st) && |st.toks| <= |r.st.toks|
  {
  }

  /** Exactly the lexemes that make tokens allocate one. */
  lemma ApplyAllocates(v: Variant, cap: nat, st: State, lex: Lexeme)
    requires Wf(st)
    ensures var r := Apply(v, cap, st, lex);
            r.Go? ==> |r.st.toks| == |st.toks| + (if MakesToken(lex) then 1 else 0)
  {
  }

  // -------------------------------------------------------------- whole calls

  /** Where a call stops and why. */
  datatype Result = Result(st: State, why: Stop)

  function Run(v: Variant, js: string, cap: nat, st: State): (r: Result)
    requires Wf(st)
    ensures Wf(r.st) && |st.toks| <= |r.st.toks|
    ensures v == Scan ==> r.why != Stray
    decreases |js| - st.pos
  {
    if AtEnd(js, st.pos) then Result(st, EndOfText)
    else
      ApplyKeepsWf(v, cap, st, LexemeAt(js, st.pos));
      ApplyMoves(v, cap, st, LexemeAt(js, st.pos));
      match Apply(v, cap, st, LexemeAt(js, st.pos))
      case Go(next) => Run(v, js, cap, next)
      case Halt(why) => Result(st, why)
  }

  /** One turn of the loop. */
  lemma RunStep(v: Variant, js: string, cap: nat, st: State)
    requires Wf(st) && !AtEnd(js, st.pos)
    ensures var lex, a := LexemeAt(js, st.pos), Apply(v, cap, st, LexemeAt(js, st.pos));
      && (a.Go? ==> Wf(a.st) && st.pos < a.st.pos == After(st.pos, lex) <= |js|
                    && Run(v, js, cap, st) == Run(v, js, cap, a.st)
                    && |a.st.toks| == |st.toks| + (if MakesToken(lex) then 1 else 0))
      && (a.Halt? ==> Run(v, js, cap, st) == Result(st, a.why) && a.why != EndOfText)
  {
    var lex := LexemeAt(js, st.pos);
    ApplyKeepsWf(v, cap, st, lex);
    ApplyMoves(v, cap, st, lex);
    ApplyAllocates(v, cap, st, lex);
  }

  const NOMEM := -1
  const INVAL := -2
  const PART := -3

  function StopCode(why: Stop): int
    requires why != Stray
  {
    match why
    case NoMem => NOMEM
    case Inval => INVAL
    case Part => PART
    case EndOfText => 0
  }

  function CodeStop(code: int): (why: Stop)
    ensures why != Stray
  {
    if code == NOMEM then NoMem else if code == INVAL then Inval else Part
  }

  /** The code a call returns: an error, or the number of tokens it allocated. */
  function ReturnCode(before: State, r: Result): int
    requires r.why != Stray
  {
    if r.why != EndOfText then StopCode(r.why)
    else if LastOpen(r.st.toks) != -1 then PART
    else |r.st.toks| - |before.toks|
  }

  // ------------------------------------------------------------ counting mode

  datatype Count = Count(pos: nat, n: nat, why: Stop)

  /** A call without a token array only reads lexemes and counts. */
  function CountRun(js: string, pos: nat, n: nat): (c: Count)
    ensures c.why != Stray
    decreases |js| - pos
  {
    if AtEnd(js, pos) then Count(pos, n, EndOfText)
    else
      var lex := LexemeAt(js, pos);
      if lex == Bad then Count(pos, n, Inval)
      else if lex == Cut then Count(pos, n, Part)
      else CountRun(js, After(pos, lex), if MakesToken(lex) then n + 1 else n)
  }

  function CountCode(c: Count): int
    requires c.why != Stray
  {
    if c.why != EndOfText then StopCode(c.why) else c.n
  }
}
