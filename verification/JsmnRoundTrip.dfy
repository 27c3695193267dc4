/**
 * Printing a JSON document and tokenizing the text gives back exactly the tokens
 * that describe the document, in both builds.
 */
module JsmnRoundTrip {
  import opened JsmnModel
  import opened JsmnInvariants
  import opened JsmnPieces
  import opened JsmnJson

  // ------------------------------------------------------ documents as pieces

  ghost function Spaces(ws: string): seq<Piece> {
    if ws == "" then [] else [Space(ws[0])] + Spaces(ws[1..])
  }

  ghost function Pieces(v: Json): seq<Piece> {
    match v
    case JWord(text) => [Word(text)]
    case JText(body) => [Text(body)]
    case JArray(ws, elems) => [OpenBracket(false)] + (Spaces(ws) + (ElemsPieces(elems) + [CloseBracket(false)]))
    case JObject(ws, members) => [OpenBracket(true)] + (Spaces(ws) + (MembersPieces(members) + [CloseBracket(true)]))
  }

  ghost function ElemsPieces(es: Elems): seq<Piece> {
    match es
    case NoElems => []
    case Elem(v, after, before, rest) => Pieces(v) + (Spaces(after) + ElemsTail(es))
  }

  ghost function ElemsTail(es: Elems): seq<Piece>
    requires es.Elem?
    decreases es, 0
  {
    if es.rest.NoElems? then [] else [CommaSign] + (Spaces(es.before) + ElemsPieces(es.rest))
  }

  ghost function MembersPieces(ms: Members): seq<Piece> {
    match ms
    case NoMembers => []
    case Member(key, w1, w2, v, after, before, rest) =>
      [Text(key)] + (Spaces(w1) + ([ColonSign] + (Spaces(w2) + (Pieces(v) + (Spaces(after) + MembersTail(ms))))))
  }

  ghost function MembersTail(ms: Members): seq<Piece>
    requires ms.Member?
    decreases ms, 0
  {
    if ms.rest.NoMembers? then [] else [CommaSign] + (Spaces(ms.before) + MembersPieces(ms.rest))
  }

  // -------------------------------------------------------------- they spell it

  lemma {:induction false} SpellAppend(a: seq<Piece>, b: seq<Piece>)
    ensures SpellAll(a + b) == SpellAll(a) + SpellAll(b)
    decreases |a|
  {
    if a == [] {
      assert a + b == b;
    } else {
      assert (a + b)[0] == a[0] && (a + b)[1..] == a[1..] + b;
      SpellAppend(a[1..], b);
    }
  }

  lemma SpellOne(p: Piece, b: seq<Piece>)
    ensures SpellAll([p] + b) == Spell(p) + SpellAll(b)
  {
    assert ([p] + b)[1..] == b;
  }

  lemma {:induction false} SpellSpaces(ws: string)
    ensures SpellAll(Spaces(ws)) == ws
    decreases |ws|
  {
    if ws != "" {
      SpellSpaces(ws[1..]);
      SpellOne(Space(ws[0]), Spaces(ws[1..]));
    }
  }

  lemma SpellAfterSpaces(ws: string, b: seq<Piece>)
    ensures SpellAll(Spaces(ws) + b) == ws + SpellAll(b)
  {
    SpellSpaces(ws);
    SpellAppend(Spaces(ws), b);
  }

  lemma {:induction false} PiecesSpell(v: Json)
    ensures SpellAll(Pieces(v)) == Print(v)
    decreases v
  {
    match v
    case JWord(text) => SpellOne(Word(text), []); assert [Word(text)] + [] == [Word(text)];
    case JText(body) => SpellOne(Text(body), []); assert [Text(body)] + [] == [Text(body)];
    case JArray(ws, elems) =>
      ElemsPiecesSpell(elems);
      SpellBracketed(false, ws, ElemsPieces(elems));
    case JObject(ws, members) =>
      MembersPiecesSpell(members);
      SpellBracketed(true, ws, MembersPieces(members));
  }

  lemma SpellBracketed(curly: bool, ws: string, inside: seq<Piece>)
    ensures SpellAll([OpenBracket(curly)] + (Spaces(ws) + (inside + [CloseBracket(curly)]))) ==
            Spell(OpenBracket(curly)) + (ws + (SpellAll(inside) + Spell(CloseBracket(curly))))
  {
    SpellOne(OpenBracket(curly), Spaces(ws) + (inside + [CloseBracket(curly)]));
    SpellAfterSpaces(ws, inside + [CloseBracket(curly)]);
    SpellAppend(inside, [CloseBracket(curly)]);
    SpellOne(CloseBracket(curly), []);
    assert [CloseBracket(curly)] + [] == [CloseBracket(curly)];
  }

  lemma {:induction false} ElemsPiecesSpell(es: Elems)
    ensures SpellAll(ElemsPieces(es)) == PrintElems(es)
    decreases es
  {
    if es.Elem? {
      PiecesSpell(es.v);
      ElemsPiecesSpell(es.rest);
      SpellAppend(Pieces(es.v), Spaces(es.after) + ElemsTail(es));
      SpellAfterSpaces(es.after, ElemsTail(es));
      if es.rest.Elem? {
        SpellOne(CommaSign, Spaces(es.before) + ElemsPieces(es.rest));
        SpellAfterSpaces(es.before, ElemsPieces(es.rest));
      }
    }
  }

  lemma {:induction false} MembersPiecesSpell(ms: Members)
    ensures SpellAll(MembersPieces(ms)) == PrintMembers(ms)
    decreases ms
  {
    if ms.Member? {
      PiecesSpell(ms.value);
      MembersPiecesSpell(ms.rest);
      var t3 := Pieces(ms.value) + (Spaces(ms.after) + MembersTail(ms));
      var t2 := [ColonSign] + (Spaces(ms.afterColon) + t3);
      SpellOne(Text(ms.key), Spaces(ms.beforeColon) + t2);
      SpellAfterSpaces(ms.beforeColon, t2);
      SpellOne(ColonSign, Spaces(ms.afterColon) + t3);
      SpellAfterSpaces(ms.afterColon, t3);
      SpellAppend(Pieces(ms.value), Spaces(ms.after) + MembersTail(ms));
      SpellAfterSpaces(ms.after, MembersTail(ms));
      if ms.rest.Member? {
        SpellOne(CommaSign, Spaces(ms.before) + MembersPieces(ms.rest));
        SpellAfterSpaces(ms.before, MembersPieces(ms.rest));
      }
    }
  }

  // ---------------------------------------------------- and are well separated

  /** Pieces that may follow anything, a word included. */
  ghost predicate Follows(ps: seq<Piece>) {
    ArePieces(ps) && (ps != [] ==> EndsWord(ps[0]))
  }

  lemma ConsPiece(p: Piece, ps: seq<Piece>)
    requires IsPiece(p) && ArePieces(ps) && (p.Word? ==> Follows(ps))
    ensures ArePieces([p] + ps) && (EndsWord(p) ==> Follows([p] + ps))
  {
    var all := [p] + ps;
    forall i | 0 <= i < |all| ensures IsPiece(all[i]) { if i > 0 { assert IsPiece(ps[i - 1]); } }
    forall i | 0 < i < |all| && all[i - 1].Word? ensures EndsWord(all[i]) {
      if i > 1 { assert ps[i - 2].Word? && all[i] == ps[i - 1]; }
    }
  }

  lemma {:induction false} ConsSpaces(ws: string, ps: seq<Piece>)
    requires IsWhite(ws) && ArePieces(ps)
    ensures ArePieces(Spaces(ws) + ps) && (Follows(ps) ==> Follows(Spaces(ws) + ps))
    decreases |ws|
  {
    if ws == "" {
      assert Spaces(ws) + ps == ps;
    } else {
      ConsSpaces(ws[1..], ps);
      ConsPiece(Space(ws[0]), Spaces(ws[1..]) + ps);
      assert Spaces(ws) + ps == [Space(ws[0])] + (Spaces(ws[1..]) + ps);
    }
  }

  lemma {:induction false} PiecesSeparated(v: Json, ps: seq<Piece>)
    requires Legal(v) && Follows(ps)
    ensures ArePieces(Pieces(v) + ps)
    decreases v, 0
  {
    match v
    case JWord(text) => ConsPiece(Word(text), ps);
    case JText(body) => ConsPiece(Text(body), ps);
    case JArray(ws, elems) =>
      ConsPiece(CloseBracket(false), ps);
      ElemsSeparated(elems, [CloseBracket(false)] + ps);
      BracketedSeparated(false, ws, ElemsPieces(elems), ps);
    case JObject(ws, members) =>
      ConsPiece(CloseBracket(true), ps);
      MembersSeparated(members, [CloseBracket(true)] + ps);
      BracketedSeparated(true, ws, MembersPieces(members), ps);
  }

  lemma BracketedSeparated(curly: bool, ws: string, inside: seq<Piece>, ps: seq<Piece>)
    requires IsWhite(ws) && ArePieces(inside + ([CloseBracket(curly)] + ps))
    ensures ArePieces([OpenBracket(curly)] + (Spaces(ws) + (inside + [CloseBracket(curly)])) + ps)
  {
    var rest := inside + ([CloseBracket(curly)] + ps);
    ConsSpaces(ws, rest);
    ConsPiece(OpenBracket(curly), Spaces(ws) + rest);
    assert [OpenBracket(curly)] + (Spaces(ws) + (inside + [CloseBracket(curly)])) + ps
           == [OpenBracket(curly)] + (Spaces(ws) + rest);
  }

  lemma {:induction false} ElemsSeparated(es: Elems, ps: seq<Piece>)
    requires LegalElems(es) && Follows(ps)
    ensures ArePieces(ElemsPieces(es) + ps)
    decreases es
  {
    if es.NoElems? {
      assert ElemsPieces(es) + ps == ps;
    } else {
      if es.rest.Elem? {
        ElemsSeparated(es.rest, ps);
        CommaSeparated(es.before, ElemsPieces(es.rest), ps);
      } else {
        assert ElemsTail(es) + ps == ps;
      }
      ItemSeparated(es.v, es.after, ElemsTail(es), ps);
    }
  }

  lemma CommaSeparated(before: string, rest: seq<Piece>, ps: seq<Piece>)
    requires IsWhite(before) && ArePieces(rest + ps)
    ensures Follows(([CommaSign] + (Spaces(before) + rest)) + ps)
  {
    ConsSpaces(before, rest + ps);
    ConsPiece(CommaSign, Spaces(before) + (rest + ps));
    assert ([CommaSign] + (Spaces(before) + rest)) + ps == [CommaSign] + (Spaces(before) + (rest + ps));
  }

  lemma {:induction false} ItemSeparated(v: Json, after: string, tail: seq<Piece>, ps: seq<Piece>)
    requires Legal(v) && IsWhite(after) && Follows(tail + ps)
    ensures ArePieces((Pieces(v) + (Spaces(after) + tail)) + ps)
    decreases v, 1
  {
    ConsSpaces(after, tail + ps);
    PiecesSeparated(v, Spaces(after) + (tail + ps));
    assert (Pieces(v) + (Spaces(after) + tail)) + ps == Pieces(v) + (Spaces(after) + (tail + ps));
  }

  lemma {:induction false} MembersSeparated(ms: Members, ps: seq<Piece>)
    requires LegalMembers(ms) && Follows(ps)
    ensures ArePieces(MembersPieces(ms) + ps)
    decreases ms
  {
    if ms.NoMembers? {
      assert MembersPieces(ms) + ps == ps;
    } else {
      if ms.rest.Member? {
        MembersSeparated(ms.rest, ps);
        CommaSeparated(ms.before, MembersPieces(ms.rest), ps);
      } else {
        assert MembersTail(ms) + ps == ps;
      }
      var item := Pieces(ms.value) + (Spaces(ms.after) + MembersTail(ms));
      ItemSeparated(ms.value, ms.after, MembersTail(ms), ps);
      KeySeparated(ms.key, ms.beforeColon, ms.afterColon, item, ps);
    }
  }

  lemma KeySeparated(key: string, w1: string, w2: string, item: seq<Piece>, ps: seq<Piece>)
    requires IsBody(key) && IsWhite(w1) && IsWhite(w2) && ArePieces(item + ps)
    ensures ArePieces(([Text(key)] + (Spaces(w1) + ([ColonSign] + (Spaces(w2) + item)))) + ps)
  {
    ConsSpaces(w2, item + ps);
    ConsPiece(ColonSign, Spaces(w2) + (item + ps));
    var colon := [ColonSign] + (Spaces(w2) + (item + ps));
    ConsSpaces(w1, colon);
    ConsPiece(Text(key), Spaces(w1) + colon);
    assert ([Text(key)] + (Spaces(w1) + ([ColonSign] + (Spaces(w2) + item)))) + ps
           == [Text(key)] + (Spaces(w1) + colon);
  }

  // ---------------------------------------------------------- feeding a document

  /** `n` more children for token `i`. */
  ghost function BumpBy(toks: seq<Token>, i: nat, n: nat): seq<Token>
    requires i < |toks|
  {
    toks[i := toks[i].(size := toks[i].size + n)]
  }

  ghost predicate AllClosed(toks: seq<Token>) {
    forall k :: 0 <= k < |toks| ==> !IsOpen(toks[k])
  }

  lemma {:induction false} TokensAreClosed(v: Json, at: nat, index: nat, parent: int)
    ensures AllClosed(Tokens(v, at, index, parent))
    decreases v
  {
    match v
    case JArray(ws, elems) =>
      ElemsTokensAreClosed(elems, at + 1 + |ws|, index + 1, index);
      ArrayUnfolds(ws, elems, at, index, parent);
      ClosedBefore(Token(Array, at, at + |Print(v)|, ElemCount(elems), parent),
                   ElemsTokens(elems, at + 1 + |ws|, index + 1, index));
    case JObject(ws, members) =>
      MembersTokensAreClosed(members, at + 1 + |ws|, index + 1, index);
      ObjectUnfolds(ws, members, at, index, parent);
      ClosedBefore(Token(Object, at, at + |Print(v)|, MemberCount(members), parent),
                   MembersTokens(members, at + 1 + |ws|, index + 1, index));
    case _ =>
  }

  lemma ClosedBefore(t: Token, toks: seq<Token>)
    requires !IsOpen(t) && AllClosed(toks)
    ensures AllClosed([t] + toks)
  {
  }

  lemma {:induction false} ElemsTokensAreClosed(es: Elems, at: nat, index: nat, parent: nat)
    ensures AllClosed(ElemsTokens(es, at, index, parent))
    decreases es
  {
    if es.Elem? {
      TokensAreClosed(es.v, at, index, parent);
      ElemsTokensAreClosed(es.rest, at + |Print(es.v)| + |es.after| + 1 + |es.before|, index + NodeCount(es.v), parent);
    }
  }

  lemma {:induction false} MembersTokensAreClosed(ms: Members, at: nat, index: nat, parent: nat)
    ensures AllClosed(MembersTokens(ms, at, index, parent))
    decreases ms
  {
    if ms.Member? {
      TokensAreClosed(ms.value, ValueAt(ms, at), index + 1, index);
      MembersTokensAreClosed(ms.rest, RestAt(ms, at), index + 1 + NodeCount(ms.value), parent);
    }
  }

  /** Sizes aside, adding closed tokens does not change which token is the last open one. */
  lemma LastOpenUnder(a: seq<Token>, b: seq<Token>, more: seq<Token>)
    requires |a| == |b| && (forall k :: 0 <= k < |a| ==> IsOpen(a[k]) == IsOpen(b[k])) && AllClosed(more)
    ensures LastOpen(b + more) == LastOpen(a)
  {
    var x := LastOpen(a);
    forall k | x < k < |b + more| ensures !IsOpen((b + more)[k]) {
      if k < |a| { assert !IsOpen(a[k]); } else { assert !IsOpen(more[k - |a|]); }
    }
    if x >= 0 { assert (b + more)[x] == b[x]; }
  }

  /** The parser after the value `v`: only the default build moves `toksuper`, out of a closed container. */
  ghost function AfterValue(b: Variant, st: State, v: Json): State
    requires Wf(st)
  {
    State(st.pos + |Print(v)|,
          if b == Scan && (v.JArray? || v.JObject?) then LastOpen(st.toks) else st.toksuper,
          Bump(st.toks, st.toksuper) + Tokens(v, st.pos, |st.toks|, st.toksuper))
  }

  lemma FeedOne(b: Variant, cap: nat, st: State, p: Piece)
    requires Wf(st) && IsPiece(p)
    ensures var r := Apply(b, cap, st, LexemeOf(p, st.pos));
      Feed(b, cap, st, [p]) == if r.Go? then Result(r.st, EndOfText) else Result(st, r.why)
  {
    var r := Apply(b, cap, st, LexemeOf(p, st.pos));
    ApplyKeepsWf(b, cap, st, LexemeOf(p, st.pos));
    assert [p][1..] == [];
    if r.Go? { assert Feed(b, cap, r.st, []) == Result(r.st, EndOfText); }
  }

  /** Feeding `a` leads to `mid`, so feeding `a + rest` is feeding `rest` from there. */
  lemma FeedThrough(b: Variant, cap: nat, st: State, a: seq<Piece>, mid: State, rest: seq<Piece>)
    requires Wf(st) && Wf(mid) && Feed(b, cap, st, a) == Result(mid, EndOfText)
    ensures Feed(b, cap, st, a + rest) == Feed(b, cap, mid, rest)
  {
    FeedAppend(b, cap, st, a, rest);
  }

  lemma {:induction false} FeedSpaces(b: Variant, cap: nat, st: State, ws: string)
    requires Wf(st) && IsWhite(ws)
    ensures Feed(b, cap, st, Spaces(ws)) == Result(st.(pos := st.pos + |ws|), EndOfText)
    decreases |ws|
  {
    if ws != "" {
      var next := st.(pos := st.pos + 1);
      FeedSpaces(b, cap, next, ws[1..]);
      FeedOne(b, cap, st, Space(ws[0]));
      FeedThrough(b, cap, st, [Space(ws[0])], next, Spaces(ws[1..]));
    }
  }

  lemma FeedPiece(b: Variant, cap: nat, st: State, p: Piece, next: State, rest: seq<Piece>)
    requires Wf(st) && IsPiece(p) && Apply(b, cap, st, LexemeOf(p, st.pos)) == Go(next)
    ensures Wf(next) && Feed(b, cap, st, [p] + rest) == Feed(b, cap, next, rest)
  {
    ApplyKeepsWf(b, cap, st, LexemeOf(p, st.pos));
    FeedOne(b, cap, st, p);
    FeedThrough(b, cap, st, [p], next, rest);
  }

  lemma FeedBlanks(b: Variant, cap: nat, st: State, ws: string, rest: seq<Piece>)
    requires Wf(st) && IsWhite(ws)
    ensures Feed(b, cap, st, Spaces(ws) + rest) == Feed(b, cap, st.(pos := st.pos + |ws|), rest)
  {
    FeedSpaces(b, cap, st, ws);
    FeedThrough(b, cap, st, Spaces(ws), st.(pos := st.pos + |ws|), rest);
  }

  /** Inside a container that has just been entered, past the blanks. */
  ghost function Opened(st: State, curly: bool, ws: string): State
    requires Wf(st)
  {
    State(st.pos + 1 + |ws|, |st.toks|,
          Bump(st.toks, st.toksuper) + [Token(TypeFor(curly), st.pos, -1, 0, st.toksuper)])
  }

  /** The super token is the innermost open one, as it is right after a bracket or a comma. */
  ghost predicate InContainer(st: State) {
    Wf(st) && Nested(st) && st.toksuper >= 0 && LastOpen(st.toks) == st.toksuper
  }

  lemma OpenedIsInContainer(st: State, curly: bool, ws: string)
    requires Wf(st) && Nested(st)
    ensures InContainer(Opened(st, curly, ws))
  {
    var open := Opened(st, curly, "");
    assert Apply(Scan, |st.toks| + 1, st, Open(TypeFor(curly))) == Go(open);
    ApplyKeepsNested(Scan, |st.toks| + 1, st, Open(TypeFor(curly)));
    assert IsOpen(open.toks[|st.toks|]);
  }

  lemma FeedOpening(b: Variant, cap: nat, st: State, curly: bool, ws: string, rest: seq<Piece>)
    requires Wf(st) && IsWhite(ws) && |st.toks| < cap && Wf(Opened(st, curly, ws))
    ensures Feed(b, cap, st, [OpenBracket(curly)] + (Spaces(ws) + rest)) == Feed(b, cap, Opened(st, curly, ws), rest)
  {
    var open := Opened(st, curly, "");
    FeedPiece(b, cap, st, OpenBracket(curly), open, Spaces(ws) + rest);
    FeedBlanks(b, cap, open, ws, rest);
  }

  /** The tokens once the container is closed with `k` children below it, whose tokens are `inner`. */
  ghost function Closed(st: State, curly: bool, end: nat, k: nat, inner: seq<Token>): seq<Token>
    requires Wf(st)
  {
    Bump(st.toks, st.toksuper) + ([Token(TypeFor(curly), st.pos, end, k, st.toksuper)] + inner)
  }

  lemma CloseContainer(b: Variant, cap: nat, st: State, curly: bool, ws: string, mid: State, k: nat, inner: seq<Token>)
    returns (last: State)
    requires Wf(st) && Nested(st) && Wf(mid) && Nested(mid) && AllClosed(inner)
    requires mid.toks == BumpBy(Opened(st, curly, ws).toks, |st.toks|, k) + inner
    ensures last == State(mid.pos + 1, if b == Scan then LastOpen(st.toks) else st.toksuper,
                          Closed(st, curly, mid.pos + 1, k, inner))
    ensures Apply(b, cap, mid, Close(TypeFor(curly))) == Go(last)
  {
    BracketIsLastOpen(st, curly, ws, mid.toks, k, inner);
    var closed := CloseToken(mid.toks, |st.toks|, mid.pos + 1);
    assert closed == Closed(st, curly, mid.pos + 1, k, inner);
    OpenAfterClose(mid.toks, mid.pos + 1);
    SameOpen(mid.toks[..|st.toks|], st.toks);
    last := State(mid.pos + 1, if b == Scan then LastOpen(closed) else st.toksuper, closed);
    CloseApplies(b, cap, mid, TypeFor(curly));
  }

  lemma CloseApplies(b: Variant, cap: nat, mid: State, typ: TokenType)
    requires Wf(mid) && Nested(mid) && LastOpen(mid.toks) != -1 && mid.toks[LastOpen(mid.toks)].typ == typ
    ensures var n := LastOpen(mid.toks); var closed := CloseToken(mid.toks, n, mid.pos + 1);
      Apply(b, cap, mid, Close(typ))
        == Go(State(mid.pos + 1, if b == Scan then LastOpen(closed) else mid.toks[n].parent, closed))
  {
  }

  lemma BracketIsLastOpen(st: State, curly: bool, ws: string, toks: seq<Token>, k: nat, inner: seq<Token>)
    requires Wf(st) && AllClosed(inner) && toks == BumpBy(Opened(st, curly, ws).toks, |st.toks|, k) + inner
    ensures LastOpen(toks) == |st.toks| && toks[|st.toks|] == Token(TypeFor(curly), st.pos, -1, k, st.toksuper)
    ensures toks[..|st.toks|] == Bump(st.toks, st.toksuper)
  {
    var entered := Opened(st, curly, ws).toks;
    assert IsOpen(entered[|st.toks|]) && LastOpen(entered) == |st.toks|;
    LastOpenUnder(entered, BumpBy(entered, |st.toks|, k), inner);
  }

  /** From the opening to the closing bracket, given what feeding the inside does. */
  lemma FeedContainer(b: Variant, cap: nat, st: State, curly: bool, ws: string, inside: seq<Piece>,
                      mid: State, k: nat, inner: seq<Token>) returns (last: State)
    requires Wf(st) && Nested(st) && IsWhite(ws) && |st.toks| < cap
    requires Feed(b, cap, Opened(st, curly, ws), inside) == Result(mid, EndOfText)
    requires mid.toks == BumpBy(Opened(st, curly, ws).toks, |st.toks|, k) + inner && AllClosed(inner)
    ensures last == State(mid.pos + 1, if b == Scan then LastOpen(st.toks) else st.toksuper,
                          Closed(st, curly, mid.pos + 1, k, inner))
    ensures Feed(b, cap, st, [OpenBracket(curly)] + (Spaces(ws) + (inside + [CloseBracket(curly)])))
            == Result(last, EndOfText)
  {
    var close := [CloseBracket(curly)];
    OpenedIsInContainer(st, curly, ws);
    FeedKeepsNested(b, cap, Opened(st, curly, ws), inside);
    last := CloseContainer(b, cap, st, curly, ws, mid, k, inner);
    FeedOne(b, cap, mid, CloseBracket(curly));
    FeedThrough(b, cap, Opened(st, curly, ws), inside, mid, close);
    FeedOpening(b, cap, st, curly, ws, inside + close);
  }

  /** A comma brings the super token back to the container, wherever the last value left it. */
  lemma FeedComma(b: Variant, cap: nat, st: State, ws: string, rest: seq<Piece>, i: nat) returns (next: State)
    requires Wf(st) && Nested(st) && IsWhite(ws) && i == LastOpen(st.toks)
    requires st.toksuper == i
             || (st.toksuper > i && !IsContainer(st.toks[st.toksuper].typ) && st.toks[st.toksuper].parent == i)
    ensures next == State(st.pos + 1 + |ws|, i, st.toks) && InContainer(next)
    ensures Feed(b, cap, st, [CommaSign] + (Spaces(ws) + rest)) == Feed(b, cap, next, rest)
  {
    var comma := State(st.pos + 1, i, st.toks);
    ApplyKeepsNested(b, cap, st, Comma);
    FeedPiece(b, cap, st, CommaSign, comma, Spaces(ws) + rest);
    next := comma.(pos := comma.pos + |ws|);
    FeedBlanks(b, cap, comma, ws, rest);
  }

  lemma FeedScalar(b: Variant, cap: nat, st: State, v: Json)
    requires Wf(st) && Legal(v) && (v.JWord? || v.JText?) && |st.toks| < cap
    ensures Feed(b, cap, st, Pieces(v)) == Result(AfterValue(b, st, v), EndOfText)
  {
    var p := if v.JWord? then Word(v.text) else Text(v.body);
    FeedOne(b, cap, st, p);
  }

  lemma {:induction false} FeedValue(b: Variant, cap: nat, st: State, v: Json)
    requires Wf(st) && Nested(st) && Legal(v) && |st.toks| + NodeCount(v) <= cap
    ensures Feed(b, cap, st, Pieces(v)) == Result(AfterValue(b, st, v), EndOfText)
    decreases v, 0
  {
    match v
    case JArray(ws, elems) => FeedArray(b, cap, st, ws, elems);
    case JObject(ws, members) => FeedObject(b, cap, st, ws, members);
    case _ => FeedScalar(b, cap, st, v);
  }

  lemma {:induction false} FeedArray(b: Variant, cap: nat, st: State, ws: string, es: Elems)
    requires Wf(st) && Nested(st) && IsWhite(ws) && LegalElems(es) && |st.toks| + 1 + ElemsNodeCount(es) <= cap
    ensures Feed(b, cap, st, Pieces(JArray(ws, es))) == Result(AfterValue(b, st, JArray(ws, es)), EndOfText)
    decreases es, 1
  {
    OpenedIsInContainer(st, false, ws);
    var mid := FeedElems(b, cap, Opened(st, false, ws), es);
    ArrayIsFed(b, cap, st, ws, es, mid);
  }

  lemma ArrayInside(st: State, ws: string, es: Elems, mid: State) returns (inner: seq<Token>)
    requires Wf(st) && InContainer(Opened(st, false, ws)) && mid == AfterElems(Opened(st, false, ws), es)
    ensures inner == ElemsTokens(es, st.pos + 1 + |ws|, |st.toks| + 1, |st.toks|) && AllClosed(inner)
    ensures mid.toks == BumpBy(Opened(st, false, ws).toks, |st.toks|, ElemCount(es)) + inner
    ensures mid.pos == st.pos + 1 + |ws| + |PrintElems(es)|
  {
    var at := st.pos + 1 + |ws|;
    inner := ElemsTokens(es, at, |st.toks| + 1, |st.toks|);
    ElemsTokensAreClosed(es, at, |st.toks| + 1, |st.toks|);
  }

  lemma ArrayIsFed(b: Variant, cap: nat, st: State, ws: string, es: Elems, mid: State)
    requires Wf(st) && Nested(st) && IsWhite(ws) && |st.toks| < cap && InContainer(Opened(st, false, ws))
    requires mid == AfterElems(Opened(st, false, ws), es)
    requires Feed(b, cap, Opened(st, false, ws), ElemsPieces(es)) == Result(mid, EndOfText)
    ensures Feed(b, cap, st, Pieces(JArray(ws, es))) == Result(AfterValue(b, st, JArray(ws, es)), EndOfText)
  {
    var inner := ArrayInside(st, ws, es, mid);
    var last := FeedContainer(b, cap, st, false, ws, ElemsPieces(es), mid, ElemCount(es), inner);
    PrintedArray(ws, es, 1 + |ws| + |PrintElems(es)| + 1, st.pos, |st.toks|, st.toksuper, inner);
    AfterContainer(b, st, JArray(ws, es), false, ElemCount(es), inner, last);
  }

  lemma PrintedArray(ws: string, es: Elems, size: nat, at: nat, index: nat, parent: int, inner: seq<Token>)
    requires inner == ElemsTokens(es, at + 1 + |ws|, index + 1, index)
    requires size == 1 + |ws| + |PrintElems(es)| + 1
    ensures |Print(JArray(ws, es))| == size
    ensures Tokens(JArray(ws, es), at, index, parent)
            == [Token(Array, at, at + size, ElemCount(es), parent)] + inner
  {
    BracketedLength("[", ws, PrintElems(es), "]");
    ArrayUnfolds(ws, es, at, index, parent);
  }

  lemma BracketedLength(open: string, ws: string, inside: string, close: string)
    ensures |open + (ws + (inside + close))| == |open| + |ws| + |inside| + |close|
  {
  }

  lemma AfterContainer(b: Variant, st: State, v: Json, curly: bool, k: nat, inner: seq<Token>, last: State)
    requires Wf(st) && (v.JArray? || v.JObject?) && last.pos == st.pos + |Print(v)|
    requires last.toksuper == if b == Scan then LastOpen(st.toks) else st.toksuper
    requires last.toks == Closed(st, curly, last.pos, k, inner)
    requires Tokens(v, st.pos, |st.toks|, st.toksuper) ==
             [Token(TypeFor(curly), st.pos, last.pos, k, st.toksuper)] + inner
    ensures last == AfterValue(b, st, v)
  {
  }

  lemma {:induction false} FeedObject(b: Variant, cap: nat, st: State, ws: string, ms: Members)
    requires Wf(st) && Nested(st) && IsWhite(ws) && LegalMembers(ms) && |st.toks| + 1 + MembersNodeCount(ms) <= cap
    ensures Feed(b, cap, st, Pieces(JObject(ws, ms))) == Result(AfterValue(b, st, JObject(ws, ms)), EndOfText)
    decreases ms, 2
  {
    OpenedIsInContainer(st, true, ws);
    var mid := FeedMembers(b, cap, Opened(st, true, ws), ms);
    ObjectIsFed(b, cap, st, ws, ms, mid);
  }

  lemma ObjectInside(st: State, ws: string, ms: Members, mid: State) returns (inner: seq<Token>)
    requires Wf(st) && InContainer(Opened(st, true, ws)) && mid == AfterMembers(Opened(st, true, ws), ms, mid.toksuper)
    ensures inner == MembersTokens(ms, st.pos + 1 + |ws|, |st.toks| + 1, |st.toks|) && AllClosed(inner)
    ensures mid.toks == BumpBy(Opened(st, true, ws).toks, |st.toks|, MemberCount(ms)) + inner
    ensures mid.pos == st.pos + 1 + |ws| + |PrintMembers(ms)|
  {
    var at := st.pos + 1 + |ws|;
    inner := MembersTokens(ms, at, |st.toks| + 1, |st.toks|);
    MembersTokensAreClosed(ms, at, |st.toks| + 1, |st.toks|);
  }

  lemma ObjectIsFed(b: Variant, cap: nat, st: State, ws: string, ms: Members, mid: State)
    requires Wf(st) && Nested(st) && IsWhite(ws) && |st.toks| < cap && InContainer(Opened(st, true, ws))
    requires mid == AfterMembers(Opened(st, true, ws), ms, mid.toksuper)
    requires Feed(b, cap, Opened(st, true, ws), MembersPieces(ms)) == Result(mid, EndOfText)
    ensures Feed(b, cap, st, Pieces(JObject(ws, ms))) == Result(AfterValue(b, st, JObject(ws, ms)), EndOfText)
  {
    var inner := ObjectInside(st, ws, ms, mid);
    var last := FeedContainer(b, cap, st, true, ws, MembersPieces(ms), mid, MemberCount(ms), inner);
    PrintedObject(ws, ms, 1 + |ws| + |PrintMembers(ms)| + 1, st.pos, |st.toks|, st.toksuper, inner);
    AfterContainer(b, st, JObject(ws, ms), true, MemberCount(ms), inner, last);
  }

  lemma PrintedObject(ws: string, ms: Members, size: nat, at: nat, index: nat, parent: int, inner: seq<Token>)
    requires inner == MembersTokens(ms, at + 1 + |ws|, index + 1, index)
    requires size == 1 + |ws| + |PrintMembers(ms)| + 1
    ensures |Print(JObject(ws, ms))| == size
    ensures Tokens(JObject(ws, ms), at, index, parent)
            == [Token(Object, at, at + size, MemberCount(ms), parent)] + inner
  {
    BracketedLength("{", ws, PrintMembers(ms), "}");
    ObjectUnfolds(ws, ms, at, index, parent);
  }

  /** The parser after a value and the blanks that follow. */
  ghost function AfterItem(b: Variant, st: State, v: Json, after: string): State
    requires Wf(st)
  {
    var value := AfterValue(b, st, v);
    value.(pos := value.pos + |after|)
  }

  /** A value and the blanks after it; the innermost open token stays what it was. */
  lemma {:induction false} FeedItem(b: Variant, cap: nat, st: State, v: Json, after: string, rest: seq<Piece>)
    returns (next: State)
    requires Wf(st) && Nested(st) && Legal(v) && IsWhite(after) && |st.toks| + NodeCount(v) <= cap
    ensures next == AfterItem(b, st, v, after) && Wf(next) && Nested(next) && LastOpen(next.toks) == LastOpen(st.toks)
    ensures Feed(b, cap, st, Pieces(v) + (Spaces(after) + rest)) == Feed(b, cap, next, rest)
    decreases v, 1
  {
    var mid := AfterValue(b, st, v);
    FeedValue(b, cap, st, v);
    AfterValueKeepsOpen(b, cap, st, v);
    next := mid.(pos := mid.pos + |after|);
    ThenBlanks(b, cap, st, Pieces(v), mid, after, rest);
  }

  lemma ThenBlanks(b: Variant, cap: nat, st: State, ps: seq<Piece>, mid: State, ws: string, rest: seq<Piece>)
    requires Wf(st) && Wf(mid) && IsWhite(ws) && Feed(b, cap, st, ps) == Result(mid, EndOfText)
    ensures Feed(b, cap, st, ps + (Spaces(ws) + rest)) == Feed(b, cap, mid.(pos := mid.pos + |ws|), rest)
  {
    FeedThrough(b, cap, st, ps, mid, Spaces(ws) + rest);
    FeedBlanks(b, cap, mid, ws, rest);
  }

  lemma AfterValueKeepsOpen(b: Variant, cap: nat, st: State, v: Json)
    requires Wf(st) && Nested(st) && Feed(b, cap, st, Pieces(v)) == Result(AfterValue(b, st, v), EndOfText)
    ensures var next := AfterValue(b, st, v); Wf(next) && Nested(next) && LastOpen(next.toks) == LastOpen(st.toks)
  {
    FeedKeepsNested(b, cap, st, Pieces(v));
    TokensAreClosed(v, st.pos, |st.toks|, st.toksuper);
    LastOpenUnder(st.toks, Bump(st.toks, st.toksuper), Tokens(v, st.pos, |st.toks|, st.toksuper));
  }

  /** The parser after the elements of an array. */
  ghost function AfterElems(st: State, es: Elems): State
    requires InContainer(st)
  {
    State(st.pos + |PrintElems(es)|, st.toksuper,
          BumpBy(st.toks, st.toksuper, ElemCount(es)) + ElemsTokens(es, st.pos, |st.toks|, st.toksuper))
  }

  lemma {:induction false} FeedElems(b: Variant, cap: nat, st: State, es: Elems) returns (last: State)
    requires InContainer(st) && LegalElems(es) && |st.toks| + ElemsNodeCount(es) <= cap
    ensures last == AfterElems(st, es)
    ensures Feed(b, cap, st, ElemsPieces(es)) == Result(last, EndOfText)
    decreases es, 0
  {
    last := st;
    if es.Elem? {
      assert ElemsPieces(es) == Pieces(es.v) + (Spaces(es.after) + ElemsTail(es));
      last := FeedItem(b, cap, st, es.v, es.after, ElemsTail(es));
      if es.rest.Elem? {
        last := FeedElemsTail(b, cap, st, es, last);
      } else {
        AfterLastElem(st, es);
      }
    }
  }

  /** The comma after an element, and the other elements. */
  lemma {:induction false} FeedElemsTail(b: Variant, cap: nat, st: State, es: Elems, spaced: State)
    returns (last: State)
    requires InContainer(st) && LegalElems(es) && es.Elem? && es.rest.Elem? && |st.toks| + ElemsNodeCount(es) <= cap
    requires spaced == AfterItem(b, st, es.v, es.after) && Wf(spaced) && Nested(spaced)
    requires LastOpen(spaced.toks) == st.toksuper == spaced.toksuper
    ensures last == AfterElems(st, es)
    ensures Feed(b, cap, spaced, ElemsTail(es)) == Result(last, EndOfText)
    decreases es.rest, 1
  {
    assert ElemsTail(es) == [CommaSign] + (Spaces(es.before) + ElemsPieces(es.rest));
    var next := FeedComma(b, cap, spaced, es.before, ElemsPieces(es.rest), st.toksuper);
    last := FeedElems(b, cap, next, es.rest);
    AfterElemsSplits(st, es, next);
  }

  lemma AfterLastElem(st: State, es: Elems)
    requires InContainer(st) && es.Elem? && es.rest.NoElems?
    ensures AfterElems(st, es) == State(st.pos + |Print(es.v)| + |es.after|, st.toksuper,
                                        Bump(st.toks, st.toksuper) + Tokens(es.v, st.pos, |st.toks|, st.toksuper))
  {
    LastElemUnfolds(es, st.pos, |st.toks|, st.toksuper);
    assert BumpBy(st.toks, st.toksuper, 1) == Bump(st.toks, st.toksuper);
  }

  lemma LastElemUnfolds(es: Elems, at: nat, index: nat, parent: nat)
    requires es.Elem? && es.rest.NoElems?
    ensures ElemCount(es) == 1 && |PrintElems(es)| == |Print(es.v)| + |es.after|
    ensures ElemsTokens(es, at, index, parent) == Tokens(es.v, at, index, parent)
  {
    var tokens := Tokens(es.v, at, index, parent);
    assert ElemsTokens(es, at, index, parent) == tokens + [] == tokens;
  }

  lemma AfterElemsSplits(st: State, es: Elems, next: State)
    requires InContainer(st) && InContainer(next) && es.Elem? && es.rest.Elem?
    requires next == State(st.pos + |Print(es.v)| + |es.after| + 1 + |es.before|, st.toksuper,
                           Bump(st.toks, st.toksuper) + Tokens(es.v, st.pos, |st.toks|, st.toksuper))
    ensures AfterElems(next, es.rest) == AfterElems(st, es)
  {
    BumpTwice(st.toks, st.toksuper, Tokens(es.v, st.pos, |st.toks|, st.toksuper), ElemCount(es.rest),
              ElemsTokens(es.rest, next.pos, |next.toks|, st.toksuper));
  }

  lemma BumpTwice(toks: seq<Token>, i: nat, one: seq<Token>, n: nat, more: seq<Token>)
    requires i < |toks|
    ensures BumpBy(Bump(toks, i) + one, i, n) + more == BumpBy(toks, i, n + 1) + (one + more)
  {
    assert (Bump(toks, i) + one)[i] == Bump(toks, i)[i];
  }

  /** The parser after the members of an object, wherever the last value left the super token. */
  ghost function AfterMembers(st: State, ms: Members, super: int): State
    requires InContainer(st)
  {
    State(st.pos + |PrintMembers(ms)|, super,
          BumpBy(st.toks, st.toksuper, MemberCount(ms)) + MembersTokens(ms, st.pos, |st.toks|, st.toksuper))
  }

  /** Past a key and its colon: the key is the super token. */
  ghost function AfterKey(st: State, ms: Members): State
    requires InContainer(st) && ms.Member?
  {
    State(ValueAt(ms, st.pos), |st.toks|,
          Bump(st.toks, st.toksuper) + [Token(String, st.pos + 1, st.pos + 1 + |ms.key|, 0, st.toksuper)])
  }

  lemma FeedColon(b: Variant, cap: nat, st: State, w1: string, w2: string, rest: seq<Piece>)
    requires Wf(st) && IsWhite(w1) && IsWhite(w2)
    ensures Feed(b, cap, st, Spaces(w1) + ([ColonSign] + (Spaces(w2) + rest))) ==
            Feed(b, cap, State(st.pos + |w1| + 1 + |w2|, |st.toks| - 1, st.toks), rest)
  {
    var spaced := st.(pos := st.pos + |w1|);
    var colon := State(spaced.pos + 1, |st.toks| - 1, st.toks);
    FeedBlanks(b, cap, colon, w2, rest);
    FeedPiece(b, cap, spaced, ColonSign, colon, Spaces(w2) + rest);
    FeedBlanks(b, cap, st, w1, [ColonSign] + (Spaces(w2) + rest));
    assert colon.(pos := colon.pos + |w2|) == State(st.pos + |w1| + 1 + |w2|, |st.toks| - 1, st.toks);
  }

  lemma AfterKeyIsNested(st: State, ms: Members)
    requires InContainer(st) && ms.Member?
    ensures var next := AfterKey(st, ms); Wf(next) && Nested(next) && LastOpen(next.toks) == st.toksuper
  {
    var keyed := State(st.pos + |ms.key| + 2, st.toksuper, AfterKey(st, ms).toks);
    assert Apply(Scan, |st.toks| + 1, st, Quoted(st.pos + 1 + |ms.key|)) == Go(keyed);
    ApplyKeepsNested(Scan, |st.toks| + 1, st, Quoted(st.pos + 1 + |ms.key|));
    LastOpenUnder(st.toks, Bump(st.toks, st.toksuper), [keyed.toks[|st.toks|]]);
  }

  lemma FeedKey(b: Variant, cap: nat, st: State, ms: Members, rest: seq<Piece>)
    requires InContainer(st) && LegalMembers(ms) && ms.Member? && |st.toks| < cap && Wf(AfterKey(st, ms))
    ensures Feed(b, cap, st,
                 [Text(ms.key)] + (Spaces(ms.beforeColon) + ([ColonSign] + (Spaces(ms.afterColon) + rest)))) ==
            Feed(b, cap, AfterKey(st, ms), rest)
  {
    var keyed := State(st.pos + |ms.key| + 2, st.toksuper, AfterKey(st, ms).toks);
    FeedPiece(b, cap, st, Text(ms.key), keyed, Spaces(ms.beforeColon) + ([ColonSign] + (Spaces(ms.afterColon) + rest)));
    FeedColon(b, cap, keyed, ms.beforeColon, ms.afterColon, rest);
  }

  lemma {:induction false} FeedMembers(b: Variant, cap: nat, st: State, ms: Members) returns (last: State)
    requires InContainer(st) && LegalMembers(ms) && |st.toks| + MembersNodeCount(ms) <= cap
    ensures last == AfterMembers(st, ms, last.toksuper)
    ensures Feed(b, cap, st, MembersPieces(ms)) == Result(last, EndOfText)
    decreases ms, 1
  {
    last := st;
    if ms.Member? {
      last := FeedMember(b, cap, st, ms);
      if ms.rest.NoMembers? {
        AfterLastMember(st, ms, last.toksuper);
      } else {
        last := FeedMembersTail(b, cap, st, ms, last);
      }
    }
  }

  /** The comma after a member, and the other members. */
  lemma {:induction false} FeedMembersTail(b: Variant, cap: nat, st: State, ms: Members, spaced: State)
    returns (last: State)
    requires InContainer(st) && LegalMembers(ms) && ms.Member? && ms.rest.Member?
             && |st.toks| + MembersNodeCount(ms) <= cap
    requires Wf(spaced) && Nested(spaced) && LastOpen(spaced.toks) == st.toksuper
    requires spaced.pos == ValueAt(ms, st.pos) + |Print(ms.value)| + |ms.after|
    requires spaced.toks == Bump(st.toks, st.toksuper) + MemberTokens(ms, st.pos, |st.toks|, st.toksuper)
    requires spaced.toksuper == st.toksuper || spaced.toksuper == |st.toks|
    ensures last == AfterMembers(st, ms, last.toksuper)
    ensures Feed(b, cap, spaced, MembersTail(ms)) == Result(last, EndOfText)
    decreases ms.rest, 2
  {
    assert MembersTail(ms) == [CommaSign] + (Spaces(ms.before) + MembersPieces(ms.rest));
    var next := FeedComma(b, cap, spaced, ms.before, MembersPieces(ms.rest), st.toksuper);
    last := FeedMembers(b, cap, next, ms.rest);
    AfterMembersSplits(st, ms, next, last.toksuper);
  }

  /** The tokens of one more member, its value included. */
  ghost function MemberTokens(ms: Members, at: nat, index: nat, parent: nat): (r: seq<Token>)
    requires ms.Member?
    ensures |r| == 1 + NodeCount(ms.value)
  {
    [Token(String, at + 1, at + 1 + |ms.key|, 1, parent)] + Tokens(ms.value, ValueAt(ms, at), index + 1, index)
  }

  lemma {:induction false} FeedMember(b: Variant, cap: nat, st: State, ms: Members) returns (next: State)
    requires InContainer(st) && LegalMembers(ms) && ms.Member? && |st.toks| + 1 + NodeCount(ms.value) <= cap
    ensures Wf(next) && Nested(next) && LastOpen(next.toks) == st.toksuper
    ensures next.pos == ValueAt(ms, st.pos) + |Print(ms.value)| + |ms.after|
    ensures next.toks == Bump(st.toks, st.toksuper) + MemberTokens(ms, st.pos, |st.toks|, st.toksuper)
    ensures next.toksuper == st.toksuper || next.toksuper == |st.toks|
    ensures Feed(b, cap, st, MembersPieces(ms)) == Feed(b, cap, next, MembersTail(ms))
    decreases ms, 0
  {
    var key := AfterKey(st, ms);
    AfterKeyIsNested(st, ms);
    next := FeedItem(b, cap, key, ms.value, ms.after, MembersTail(ms));
    FeedKey(b, cap, st, ms, Pieces(ms.value) + (Spaces(ms.after) + MembersTail(ms)));
    AfterMemberTokens(b, st, ms);
    assert MembersPieces(ms) == [Text(ms.key)] + (Spaces(ms.beforeColon) + ([ColonSign] + (Spaces(ms.afterColon)
                                + (Pieces(ms.value) + (Spaces(ms.after) + MembersTail(ms))))));
  }

  lemma AfterMemberTokens(b: Variant, st: State, ms: Members)
    requires InContainer(st) && ms.Member? && Wf(AfterKey(st, ms))
    ensures AfterItem(b, AfterKey(st, ms), ms.value, ms.after).toks
            == Bump(st.toks, st.toksuper) + MemberTokens(ms, st.pos, |st.toks|, st.toksuper)
  {
    var key := AfterKey(st, ms).toks;
    assert Bump(key, |st.toks|) == Bump(st.toks, st.toksuper)
                                   + [Token(String, st.pos + 1, st.pos + 1 + |ms.key|, 1, st.toksuper)];
  }

  lemma AfterLastMember(st: State, ms: Members, super: int)
    requires InContainer(st) && ms.Member? && ms.rest.NoMembers?
    ensures AfterMembers(st, ms, super) == State(ValueAt(ms, st.pos) + |Print(ms.value)| + |ms.after|, super,
                                                 Bump(st.toks, st.toksuper) +
                                                 MemberTokens(ms, st.pos, |st.toks|, st.toksuper))
  {
    assert MemberCount(ms.rest) == 0;
    assert MembersTokens(ms.rest, RestAt(ms, st.pos), |st.toks| + 1 + NodeCount(ms.value), st.toksuper) == [];
    assert AfterMembers(st, ms, super).toks
           == Bump(st.toks, st.toksuper) + MemberTokens(ms, st.pos, |st.toks|, st.toksuper);
  }

  lemma MembersLength(ms: Members, at: nat)
    requires ms.Member? && ms.rest.Member?
    ensures at + |PrintMembers(ms)| == RestAt(ms, at) + |PrintMembers(ms.rest)|
  {
  }

  lemma MembersInParts(ms: Members, at: nat, index: nat, parent: nat, one: seq<Token>, next: nat, more: seq<Token>)
    requires ms.Member? && ms.rest.Member?
    requires one == MemberTokens(ms, at, index, parent) && next == index + |one|
    requires more == MembersTokens(ms.rest, RestAt(ms, at), next, parent)
    ensures MembersTokens(ms, at, index, parent) == one + more
  {
  }

  lemma AfterMembersSplits(st: State, ms: Members, next: State, super: int)
    requires InContainer(st) && InContainer(next) && ms.Member? && ms.rest.Member?
    requires next == State(RestAt(ms, st.pos), st.toksuper,
                           Bump(st.toks, st.toksuper) + MemberTokens(ms, st.pos, |st.toks|, st.toksuper))
    ensures AfterMembers(next, ms.rest, super) == AfterMembers(st, ms, super)
  {
    var one := MemberTokens(ms, st.pos, |st.toks|, st.toksuper);
    var more := MembersTokens(ms.rest, next.pos, |next.toks|, st.toksuper);
    MembersInParts(ms, st.pos, |st.toks|, st.toksuper, one, |next.toks|, more);
    BumpTwice(st.toks, st.toksuper, one, MemberCount(ms.rest), more);
    MembersLength(ms, st.pos);
  }

  // ------------------------------------------------------------ the round trip

  /** The state after a printed document. */
  ghost function Tokenized(d: Document): State {
    State(|PrintDocument(d)|, -1, Tokens(d.root, |d.leading|, 0, -1))
  }

  /** Printing a document and tokenizing it, in either build and with room for its nodes, gives its tokens. */
  lemma RoundTrip(b: Variant, d: Document, cap: nat)
    requires LegalDocument(d) && NodeCount(d.root) <= cap
    ensures Run(b, PrintDocument(d), cap, INIT) == Result(Tokenized(d), EndOfText)
    ensures ReturnCode(INIT, Run(b, PrintDocument(d), cap, INIT)) == NodeCount(d.root)
    ensures AllDelimit(PrintDocument(d), Tokenized(d).toks, NodeTexts(d.root))
  {
    var js := PrintDocument(d);
    DocumentSpells(d);
    assert js[0..] == js;
    RunIsFeed(b, js, cap, INIT, Spaces(d.leading) + (Pieces(d.root) + Spaces(d.trailing)));
    FeedDocument(b, cap, d);
    TokensAreClosed(d.root, |d.leading|, 0, -1);
    DocumentDelimits(d);
  }

  /** Past the white space before a document. */
  ghost function Led(d: Document): State { State(|d.leading|, -1, []) }

  lemma FeedDocument(b: Variant, cap: nat, d: Document)
    requires LegalDocument(d) && NodeCount(d.root) <= cap
    ensures Feed(b, cap, INIT, Spaces(d.leading) + (Pieces(d.root) + Spaces(d.trailing)))
            == Result(Tokenized(d), EndOfText)
  {
    FeedBlanks(b, cap, INIT, d.leading, Pieces(d.root) + Spaces(d.trailing));
    FeedValue(b, cap, Led(d), d.root);
    FeedToEnd(b, cap, d, AfterValue(b, Led(d), d.root));
  }

  lemma FeedToEnd(b: Variant, cap: nat, d: Document, value: State)
    requires IsWhite(d.trailing) && value == AfterValue(b, Led(d), d.root) && Wf(value)
    requires Feed(b, cap, Led(d), Pieces(d.root)) == Result(value, EndOfText)
    ensures Feed(b, cap, Led(d), Pieces(d.root) + Spaces(d.trailing)) == Result(Tokenized(d), EndOfText)
  {
    FeedThrough(b, cap, Led(d), Pieces(d.root), value, Spaces(d.trailing));
    FeedSpaces(b, cap, value, d.trailing);
    ValueIsTokenized(b, d, value);
  }

  lemma ValueIsTokenized(b: Variant, d: Document, value: State)
    requires value == AfterValue(b, Led(d), d.root)
    ensures value.(pos := value.pos + |d.trailing|) == Tokenized(d)
  {
    assert Bump([], -1) + Tokens(d.root, |d.leading|, 0, -1) == Tokens(d.root, |d.leading|, 0, -1);
  }

  lemma DocumentDelimits(d: Document)
    ensures AllDelimit(PrintDocument(d), Tokens(d.root, |d.leading|, 0, -1), NodeTexts(d.root))
  {
    var js := PrintDocument(d);
    assert js[0..|js|] == js;
    StandsParts(js, 0, d.leading, Print(d.root) + d.trailing);
    StandsParts(js, |d.leading|, Print(d.root), d.trailing);
    TokensDelimitNodes(js, d.root, |d.leading|, 0, -1);
  }

  lemma DocumentSpells(d: Document)
    requires LegalDocument(d)
    ensures Spells(Spaces(d.leading) + (Pieces(d.root) + Spaces(d.trailing)), PrintDocument(d))
  {
    SpellAfterSpaces(d.leading, Pieces(d.root) + Spaces(d.trailing));
    SpellAppend(Pieces(d.root), Spaces(d.trailing));
    PiecesSpell(d.root);
    SpellSpaces(d.trailing);
    ConsSpaces(d.trailing, []);
    assert Spaces(d.trailing) + [] == Spaces(d.trailing);
    PiecesSeparated(d.root, Spaces(d.trailing));
    ConsSpaces(d.leading, Pieces(d.root) + Spaces(d.trailing));
  }

  /** So both builds fill in the same tokens, sizes included, for every document. */
  lemma VariantsAgreeOnDocuments(d: Document, cap: nat)
    requires LegalDocument(d) && NodeCount(d.root) <= cap
    ensures Run(Scan, PrintDocument(d), cap, INIT) == Run(Links, PrintDocument(d), cap, INIT)
  {
    RoundTrip(Scan, d, cap);
    RoundTrip(Links, d, cap);
  }
}
