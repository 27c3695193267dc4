/**
 * A lexical grammar for the texts jsmn can read: a text is a sequence of pieces,
 * and running the tokenizer on the text is feeding it the pieces.
 */
module JsmnPieces {
  import opened Memory
  import opened JsmnModel
  import opened JsmnInvariants

  /** Word: an unquoted value. Text: a string literal, without its quotes. */
  datatype Piece = Space(c: char) | OpenBracket(curly: bool) | CloseBracket(curly: bool)
                 | ColonSign | CommaSign | Text(body: string) | Word(text: string)

  function TypeFor(curly: bool): TokenType { if curly then Object else Array }

  ghost function Spell(p: Piece): string {
    match p
    case Space(c) => [c]
    case OpenBracket(curly) => if curly then "{" else "["
    case CloseBracket(curly) => if curly then "}" else "]"
    case ColonSign => ":"
    case CommaSign => ","
    case Text(body) => "\"" + body + "\""
    case Word(text) => text
  }

  predicate IsWordChar(c: char) { 32 <= c as int < 127 && !EndsPrimitive(c) }

  /** Printable characters up to a delimiter, not starting like another lexeme. */
  predicate IsWord(s: string) {
    s != "" && s[0] != '{' && s[0] != '[' && s[0] != '\"' && forall i :: 0 <= i < |s| ==> IsWordChar(s[i])
  }

  /** What may stand between quotes: plain characters and escapes. */
  predicate IsBody(s: string) {
    if s == "" then true
    else if s[0] == '\\' then
      && |s| > 1
      && if IsEscape(s[1]) then IsBody(s[2..])
         else s[1] == 'u' && |s| >= 6 && (forall i :: 2 <= i < 6 ==> IsHex(s[i])) && IsBody(s[6..])
    else s[0] != '\"' && s[0] != '\0' && IsBody(s[1..])
  }

  predicate IsPiece(p: Piece) {
    match p
    case Space(c) => IsBlank(c)
    case Text(body) => IsBody(body)
    case Word(text) => IsWord(text)
    case _ => true
  }

  /** May this piece come right after a word? */
  predicate EndsWord(p: Piece) {
    p.Space? || p.CloseBracket? || p.ColonSign? || p.CommaSign?
  }

  ghost predicate ArePieces(ps: seq<Piece>) {
    && (forall i :: 0 <= i < |ps| ==> IsPiece(ps[i]))
    && (forall i :: 0 < i < |ps| && ps[i - 1].Word? ==> EndsWord(ps[i]))
  }

  ghost function SpellAll(ps: seq<Piece>): string {
    if ps == [] then "" else Spell(ps[0]) + SpellAll(ps[1..])
  }

  ghost predicate Spells(ps: seq<Piece>, js: string) {
    ArePieces(ps) && SpellAll(ps) == js
  }

  /** The lexeme a piece is when it starts at `pos`. */
  ghost function LexemeOf(p: Piece, pos: nat): Lexeme {
    match p
    case Space(_) => Blank
    case OpenBracket(curly) => Open(TypeFor(curly))
    case CloseBracket(curly) => Close(TypeFor(curly))
    case ColonSign => Colon
    case CommaSign => Comma
    case Text(body) => Quoted(pos + 1 + |body|)
    case Word(text) => Bare(pos + |text|)
  }

  // ------------------------------------------------- pieces are what is read

  lemma {:induction false} WordIsRead(js: string, i: nat, text: string)
    requires StandsAt(js, i, text) && forall k :: 0 <= k < |text| ==> IsWordChar(text[k])
    requires AtEnd(js, i + |text|) || EndsPrimitive(js[i + |text|])
    ensures PrimitiveEnd(js, i) == i + |text|
    decreases |text|
  {
    if text != "" {
      assert js[i + 0] == text[0];
      forall k | 0 <= k < |text| - 1 ensures js[i + 1 + k] == text[1..][k] { assert js[i + (1 + k)] == text[1 + k]; }
      WordIsRead(js, i + 1, text[1..]);
    }
  }

  lemma FourHexDigits(js: string, i: nat)
    requires i + 4 <= |js| && forall k :: i <= k < i + 4 ==> IsHex(js[k])
    ensures HexEnd(js, i, 4) == i + 4
  {
    assert HexEnd(js, i + 4, 0) == i + 4;
    assert HexEnd(js, i + 3, 1) == i + 4;
    assert HexEnd(js, i + 2, 2) == i + 4;
    assert HexEnd(js, i + 1, 3) == i + 4;
  }

  lemma StandsRest(js: string, i: nat, part: string, n: nat)
    requires StandsAt(js, i, part) && n <= |part|
    ensures StandsAt(js, i + n, part[n..])
    ensures forall k :: 0 <= k < n ==> js[i + k] == part[k]
  {
    forall k | 0 <= k < |part| - n ensures js[i + n + k] == part[n..][k] { assert js[i + (n + k)] == part[n + k]; }
  }

  lemma {:induction false} BodyIsRead(js: string, i: nat, body: string)
    requires IsBody(body) && StandsAt(js, i, body) && i + |body| < |js| && js[i + |body|] == '\"'
    ensures StringLexeme(js, i) == Quoted(i + |body|)
    decreases |body|
  {
    if body != "" {
      var n := if body[0] != '\\' then 1 else if IsEscape(body[1]) then 2 else 6;
      StandsRest(js, i, body, n);
      assert js[i + 0] == body[0];
      if n == 2 { assert js[i + 1] == body[1]; }
      if n == 6 {
        assert js[i + 1] == body[1];
        assert js[i + 2] == body[2] && js[i + 3] == body[3] && js[i + 4] == body[4] && js[i + 5] == body[5];
        FourHexDigits(js, i + 2);
      }
      BodyIsRead(js, i + n, body[n..]);
    }
  }

  lemma PieceIsRead(js: string, pos: nat, p: Piece)
    requires IsPiece(p) && StandsAt(js, pos, Spell(p))
    requires p.Word? ==> AtEnd(js, pos + |p.text|) || EndsPrimitive(js[pos + |p.text|])
    ensures !AtEnd(js, pos) && LexemeAt(js, pos) == LexemeOf(p, pos)
    ensures After(pos, LexemeOf(p, pos)) == pos + |Spell(p)|
  {
    assert js[pos + 0] == Spell(p)[0];
    if p.Text? {
      var s := Spell(p);
      assert s[1..][..|p.body|] == p.body;
      forall k | 0 <= k < |p.body| ensures js[pos + 1 + k] == p.body[k] { assert js[pos + (1 + k)] == s[1 + k]; }
      assert js[pos + (1 + |p.body|)] == s[1 + |p.body|];
      BodyIsRead(js, pos + 1, p.body);
    } else if p.Word? {
      WordIsRead(js, pos, p.text);
    }
  }

  // ------------------------------------------------------ what is read is pieces

  lemma {:induction false} PrimitiveChars(js: string, i: nat)
    requires PrimitiveEnd(js, i) != -1 && i <= |js|
    ensures forall k :: i <= k < PrimitiveEnd(js, i) ==> IsWordChar(js[k])
    ensures var e := PrimitiveEnd(js, i); AtEnd(js, e) || EndsPrimitive(js[e])
    decreases |js| - i
  {
    if !AtEnd(js, i) && !EndsPrimitive(js[i]) { PrimitiveChars(js, i + 1); }
  }

  lemma HexDigitsRead(js: string, i: nat)
    requires HexEnd(js, i, 4) != -1 && !AtEnd(js, HexEnd(js, i, 4))
    ensures HexEnd(js, i, 4) == i + 4 && forall k :: i <= k < i + 4 ==> IsHex(js[k])
  {
    HexRead(js, i, 4);
  }

  lemma {:induction false} HexRead(js: string, i: nat, n: nat)
    requires HexEnd(js, i, n) != -1 && !AtEnd(js, HexEnd(js, i, n))
    ensures HexEnd(js, i, n) == i + n && forall k :: i <= k < i + n ==> IsHex(js[k])
    decreases n
  {
    if n > 0 { HexRead(js, i + 1, n - 1); }
  }

  lemma {:induction false} BodyRead(js: string, i: nat)
    requires StringLexeme(js, i).Quoted?
    ensures i <= StringLexeme(js, i).end < |js| && IsBody(js[i..StringLexeme(js, i).end])
    ensures js[StringLexeme(js, i).end] == '\"'
    decreases |js| - i
  {
    var e := StringLexeme(js, i).end;
    var body := js[i..e];
    if js[i] == '\"' {
    } else if js[i] == '\\' {
      if IsEscape(js[i + 1]) {
        BodyRead(js, i + 2);
        assert body[2..] == js[i + 2..e];
      } else {
        HexDigitsRead(js, i + 2);
        BodyRead(js, i + 6);
        assert body[6..] == js[i + 6..e];
      }
    } else {
      BodyRead(js, i + 1);
      assert body[1..] == js[i + 1..e];
    }
  }

  /** The piece behind a lexeme that is neither bad nor cut off. */
  lemma ReadPiece(js: string, pos: nat) returns (p: Piece)
    requires !AtEnd(js, pos) && LexemeAt(js, pos) != Bad && LexemeAt(js, pos) != Cut
    ensures IsPiece(p) && LexemeOf(p, pos) == LexemeAt(js, pos)
    ensures After(pos, LexemeAt(js, pos)) <= |js| && js[pos..After(pos, LexemeAt(js, pos))] == Spell(p)
    ensures p.Word? ==> var e := LexemeAt(js, pos).end; AtEnd(js, e) || EndsPrimitive(js[e])
  {
    var lex := LexemeAt(js, pos);
    if lex.Quoted? { p := ReadText(js, pos); }
    else if lex.Bare? { p := ReadWord(js, pos); }
    else { p := ReadSign(js, pos); }
  }

  lemma ReadText(js: string, pos: nat) returns (p: Piece)
    requires !AtEnd(js, pos) && LexemeAt(js, pos).Quoted?
    ensures IsPiece(p) && p.Text? && LexemeOf(p, pos) == LexemeAt(js, pos)
    ensures js[pos..LexemeAt(js, pos).end + 1] == Spell(p)
  {
    var end := LexemeAt(js, pos).end;
    BodyRead(js, pos + 1);
    p := Text(js[pos + 1..end]);
    assert js[pos..end + 1] == [js[pos]] + js[pos + 1..end] + [js[end]];
  }

  lemma ReadWord(js: string, pos: nat) returns (p: Piece)
    requires !AtEnd(js, pos) && LexemeAt(js, pos).Bare?
    ensures IsPiece(p) && p.Word? && LexemeOf(p, pos) == LexemeAt(js, pos)
    ensures js[pos..LexemeAt(js, pos).end] == Spell(p)
    ensures var e := LexemeAt(js, pos).end; AtEnd(js, e) || EndsPrimitive(js[e])
  {
    PrimitiveChars(js, pos);
    p := Word(js[pos..LexemeAt(js, pos).end]);
  }

  lemma ReadSign(js: string, pos: nat) returns (p: Piece)
    requires !AtEnd(js, pos)
    requires var lex := LexemeAt(js, pos); lex.Blank? || lex.Open? || lex.Close? || lex.Colon? || lex.Comma?
    ensures IsPiece(p) && !p.Word? && LexemeOf(p, pos) == LexemeAt(js, pos) && js[pos..pos + 1] == Spell(p)
  {
    match LexemeAt(js, pos)
    case Open(typ) => p := OpenBracket(typ == Object);
    case Close(typ) => p := CloseBracket(typ == Object);
    case Colon => p := ColonSign;
    case Comma => p := CommaSign;
    case Blank => p := Space(js[pos]);
  }

  lemma FirstAfterWord(ps: seq<Piece>, s: string)
    requires ps != [] && IsPiece(ps[0]) && SpellAll(ps) == s
    ensures s != "" && (EndsWord(ps[0]) <==> EndsPrimitive(s[0]))
  {
    assert Spell(ps[0]) != "" && s[0] == Spell(ps[0])[0];
  }

  // ----------------------------------------------------------------- feeding

  /** Applies pieces one after the other. */
  ghost function Feed(v: Variant, cap: nat, st: State, ps: seq<Piece>): (r: Result)
    requires Wf(st)
    ensures Wf(r.st)
    decreases |ps|
  {
    if ps == [] then Result(st, EndOfText)
    else
      var lex := LexemeOf(ps[0], st.pos);
      ApplyKeepsWf(v, cap, st, lex);
      match Apply(v, cap, st, lex)
      case Go(next) => Feed(v, cap, next, ps[1..])
      case Halt(why) => Result(st, why)
  }

  /** The pieces spell what stands in `js` from `from` up to `to`, and a last word goes no further. */
  ghost predicate SpellsPart(ps: seq<Piece>, js: string, from: nat, to: nat) {
    && from <= to <= |js| && ArePieces(ps) && SpellAll(ps) == js[from..to]
    && (ps != [] && ps[|ps| - 1].Word? ==> AtEnd(js, to) || EndsPrimitive(js[to]))
  }

  lemma RestArePieces(ps: seq<Piece>)
    requires ArePieces(ps) && ps != []
    ensures IsPiece(ps[0]) && ArePieces(ps[1..])
    ensures |ps| > 1 ==> IsPiece(ps[1]) && (ps[0].Word? ==> EndsWord(ps[1]))
  {
    var rest := ps[1..];
    forall i | 0 < i < |rest| && rest[i - 1].Word? ensures EndsWord(rest[i]) {
      assert ps[i].Word? && ps[i + 1] == rest[i];
    }
  }

  lemma PartInTwo(js: string, from: nat, to: nat, a: string, b: string)
    requires from <= to <= |js| && js[from..to] == a + b
    ensures StandsAt(js, from, a) && from + |a| <= to && js[from + |a|..to] == b
  {
    var n := |a|;
    assert js[from + n..to] == js[from..to][n..];
    forall k | 0 <= k < n ensures js[from + k] == a[k] { assert js[from..to][k] == a[k]; }
  }

  lemma FirstOfPart(js: string, from: nat, to: nat, ps: seq<Piece>) returns (next: nat)
    requires SpellsPart(ps, js, from, to) && ps != []
    ensures IsPiece(ps[0]) && StandsAt(js, from, Spell(ps[0])) && next == from + |Spell(ps[0])|
    ensures SpellsPart(ps[1..], js, next, to)
    ensures ps[0].Word? ==> AtEnd(js, next) || EndsPrimitive(js[next])
  {
    var p, rest := ps[0], ps[1..];
    next := from + |Spell(p)|;
    RestArePieces(ps);
    PartInTwo(js, from, to, Spell(p), SpellAll(rest));
    assert rest != [] ==> rest[|rest| - 1] == ps[|ps| - 1];
    if p.Word? { EndOfWord(p, rest, js, next, to); }
  }

  lemma FirstPieceIsRead(js: string, from: nat, to: nat, ps: seq<Piece>) returns (next: nat)
    requires SpellsPart(ps, js, from, to) && ps != []
    ensures !AtEnd(js, from) && LexemeAt(js, from) == LexemeOf(ps[0], from)
            && next == After(from, LexemeOf(ps[0], from))
    ensures SpellsPart(ps[1..], js, next, to)
  {
    next := FirstOfPart(js, from, to, ps);
    PieceIsRead(js, from, ps[0]);
  }

  lemma EndOfWord(p: Piece, rest: seq<Piece>, js: string, next: nat, to: nat)
    requires p.Word? && next <= to <= |js| && SpellAll(rest) == js[next..to]
    requires if rest == [] then AtEnd(js, to) || EndsPrimitive(js[to]) else IsPiece(rest[0]) && EndsWord(rest[0])
    ensures AtEnd(js, next) || EndsPrimitive(js[next])
  {
    if rest != [] { FirstAfterWord(rest, js[next..to]); }
  }

  /** Running on a text is feeding the pieces it starts with, and then running on. */
  lemma {:induction false} RunAfterFeed(v: Variant, js: string, cap: nat, st: State, ps: seq<Piece>, to: nat)
    requires Wf(st) && SpellsPart(ps, js, st.pos, to)
    ensures var f := Feed(v, cap, st, ps);
      if f.why == EndOfText then f.st.pos == to && Run(v, js, cap, st) == Run(v, js, cap, f.st)
      else Run(v, js, cap, st) == f
    decreases |ps|
  {
    if ps != [] {
      var next := FirstPieceIsRead(js, st.pos, to, ps);
      RunStep(v, js, cap, st);
      match Apply(v, cap, st, LexemeOf(ps[0], st.pos))
      case Halt(_) =>
      case Go(after) => RunAfterFeed(v, js, cap, after, ps[1..], to);
    }
  }

  /** Running on a whole text is feeding the pieces that spell it. */
  lemma RunIsFeed(v: Variant, js: string, cap: nat, st: State, ps: seq<Piece>)
    requires Wf(st) && ArePieces(ps) && st.pos <= |js| && js[st.pos..] == SpellAll(ps)
    ensures Run(v, js, cap, st) == Feed(v, cap, st, ps)
  {
    assert js[st.pos..|js|] == js[st.pos..];
    RunAfterFeed(v, js, cap, st, ps, |js|);
  }

  /** However a call ends, what it has read is pieces, and feeding them leads to where it is. */
  lemma {:induction false} RunReads(v: Variant, js: string, cap: nat, st: State) returns (ps: seq<Piece>)
    requires Wf(st) && st.pos <= |js|
    ensures var r := Run(v, js, cap, st);
      SpellsPart(ps, js, st.pos, r.st.pos) && Feed(v, cap, st, ps) == Result(r.st, EndOfText)
    decreases |js| - st.pos
  {
    ps := [];
    if !AtEnd(js, st.pos) {
      var lex := LexemeAt(js, st.pos);
      RunStep(v, js, cap, st);
      match Apply(v, cap, st, lex)
      case Halt(_) =>
      case Go(next) =>
        var p := ReadPiece(js, st.pos);
        var rest := RunReads(v, js, cap, next);
        PieceBefore(p, rest, js, st.pos, next.pos, Run(v, js, cap, st).st.pos);
        ps := [p] + rest;
    }
  }

  lemma {:induction false} RunStops(v: Variant, js: string, cap: nat, st: State)
    requires Wf(st)
    ensures var r := Run(v, js, cap, st);
      if r.why == EndOfText then AtEnd(js, r.st.pos)
      else !AtEnd(js, r.st.pos) && Apply(v, cap, r.st, LexemeAt(js, r.st.pos)) == Halt(r.why)
    decreases |js| - st.pos
  {
    if !AtEnd(js, st.pos) {
      RunStep(v, js, cap, st);
      var a := Apply(v, cap, st, LexemeAt(js, st.pos));
      if a.Go? { RunStops(v, js, cap, a.st); }
    }
  }

  lemma PieceBefore(p: Piece, rest: seq<Piece>, js: string, from: nat, next: nat, to: nat)
    requires from <= next && SpellsPart(rest, js, next, to) && IsPiece(p) && Spell(p) == js[from..next]
    requires p.Word? ==> AtEnd(js, next) || EndsPrimitive(js[next])
    ensures SpellsPart([p] + rest, js, from, to)
  {
    var ps := [p] + rest;
    assert ps[1..] == rest && js[from..to] == js[from..next] + js[next..to];
    if rest != [] {
      FirstAfterWord(rest, js[next..to]);
      assert ps[|ps| - 1] == rest[|rest| - 1];
    }
    forall i | 0 < i < |ps| && ps[i - 1].Word? ensures EndsWord(ps[i]) {
      if i > 1 { assert rest[i - 2].Word? && ps[i] == rest[i - 1]; }
    }
  }

  lemma {:induction false} FeedAppend(v: Variant, cap: nat, st: State, a: seq<Piece>, b: seq<Piece>)
    requires Wf(st)
    ensures var x := Feed(v, cap, st, a);
            Feed(v, cap, st, a + b) == if x.why == EndOfText then Feed(v, cap, x.st, b) else x
    decreases |a|
  {
    if a == [] {
      assert a + b == b;
    } else {
      assert (a + b)[0] == a[0] && (a + b)[1..] == a[1..] + b;
      var lex := LexemeOf(a[0], st.pos);
      ApplyKeepsWf(v, cap, st, lex);
      match Apply(v, cap, st, lex)
      case Halt(_) =>
      case Go(next) => FeedAppend(v, cap, next, a[1..], b);
    }
  }

  lemma {:induction false} FeedKeepsNested(v: Variant, cap: nat, st: State, ps: seq<Piece>)
    requires Wf(st) && Nested(st)
    ensures Nested(Feed(v, cap, st, ps).st)
    decreases |ps|
  {
    if ps != [] {
      var lex := LexemeOf(ps[0], st.pos);
      ApplyKeepsNested(v, cap, st, lex);
      match Apply(v, cap, st, lex)
      case Halt(_) =>
      case Go(next) => FeedKeepsNested(v, cap, next, ps[1..]);
    }
  }
}
