/**
 * jsmn_parser and its functions as they run: fields and a token array updated
 * in place. Each method is proved against the step functions of JsmnModel.
 */
module JsmnParser {
  import opened JsmnModel
  import opened JsmnInvariants

  const OK := 0

  lemma SameFrom(a: seq<Token>, b: seq<Token>, c: seq<Token>, i: nat, j: nat)
    requires i <= j <= |a| == |b| == |c| && b[i..] == a[i..] && c[j..] == b[j..]
    ensures c[j..] == a[j..]
  {
    assert b[j..] == b[i..][j - i..];
  }

  /** The end of the text, reached with nothing open or with something open. */
  lemma RunIsOver(v: Variant, js: string, cap: nat, before: State, st: State)
    requires Wf(st) && AtEnd(js, st.pos)
    ensures Run(v, js, cap, st) == Result(st, EndOfText)
    ensures ReturnCode(before, Run(v, js, cap, st))
            == if LastOpen(st.toks) != -1 then PART else |st.toks| - |before.toks|
  {
  }

  class Parser {
    const variant: Variant
    var pos: nat
    var toknext: nat
    var toksuper: int

    /** jsmn_init */
    constructor (v: Variant)
      ensures variant == v && pos == 0 && toknext == 0 && toksuper == -1
      ensures forall tokens: array<Token> :: Abs(tokens) == INIT
    {
      variant, pos, toknext, toksuper := v, 0, 0, -1;
    }

    ghost predicate Fits(tokens: array<Token>, numTokens: nat)
      reads this
    {
      toknext <= tokens.Length && numTokens <= tokens.Length
    }

    /** The model state this parser and its token array stand for. */
    ghost function Abs(tokens: array<Token>): State
      requires toknext <= tokens.Length
      reads this, tokens
    {
      State(pos, toksuper, tokens[..toknext])
    }

    ghost predicate Valid(tokens: array<Token>, numTokens: nat)
      reads this, tokens
    {
      Fits(tokens, numTokens) && Wf(Abs(tokens))
    }

    /** How a call on the text `js` will end. */
    ghost function Ahead(js: string, tokens: array<Token>, numTokens: nat): Result
      requires Valid(tokens, numTokens)
      reads this, tokens
    {
      Run(variant, js, numTokens, Abs(tokens))
    }

    /** What every call leaves and the next one needs; `js` is the text of the next call. */
    ghost predicate Ready(js: string, tokens: array<Token>, numTokens: nat)
      reads this, tokens
    {
      Valid(tokens, numTokens) && Nested(Abs(tokens)) && Ahead(js, tokens, numTokens).why != Stray
    }

    /** jsmn_alloc_token; -1 stands for the null pointer. */
    method AllocToken(tokens: array<Token>, numTokens: nat) returns (tok: int)
      requires Fits(tokens, numTokens)
      modifies this`toknext, tokens
      ensures toknext <= tokens.Length
      ensures old(toknext) >= numTokens ==> tok == -1 && toknext == old(toknext) && tokens[..] == old(tokens[..])
      ensures old(toknext) < numTokens ==>
                tok == old(toknext) && toknext == tok + 1
                  && exists typ :: tokens[..] == old(tokens[..])[tok := Token(typ, -1, -1, 0, -1)]
    {
      if toknext >= numTokens {
        return -1;
      }
      tok := toknext;
      toknext := toknext + 1;
      tokens[tok] := tokens[tok].(start := -1, end := -1);
      tokens[tok] := tokens[tok].(size := 0);
      tokens[tok] := tokens[tok].(parent := -1);
      assert tokens[..] == old(tokens[..])[tok := tokens[tok]];
      assert tokens[tok] == Token(tokens[tok].typ, -1, -1, 0, -1);
    }

    /** jsmn_fill_token */
    method FillToken(tokens: array<Token>, tok: nat, typ: TokenType, start: int, end: int)
      requires tok < tokens.Length
      modifies tokens
      ensures tokens[..] == old(tokens[..])[tok := Token(typ, start, end, 0, old(tokens[tok].parent))]
    {
      tokens[tok] := tokens[tok].(typ := typ, start := start, end := end, size := 0);
    }

    /** jsmn_parse_primitive; `pos` is left on the last character of the primitive. */
    method ParsePrimitive(js: string, tokens: array?<Token>, numTokens: nat) returns (r: int)
      requires !AtEnd(js, pos) && !EndsPrimitive(js[pos])
      requires tokens != null ==> Valid(tokens, numTokens)
      modifies this, tokens
      ensures var e := PrimitiveEnd(js, old(pos));
        if e == -1 then r == INVAL && pos == old(pos)
        else if tokens != null && old(toknext) >= numTokens then r == NOMEM && pos == old(pos)
        else r == OK && pos == e - 1
      ensures toksuper == old(toksuper)
      ensures r != OK || tokens == null ==> toknext == old(toknext)
      ensures tokens != null ==> Fits(tokens, numTokens)
      ensures tokens != null && r != OK ==> tokens[..] == old(tokens[..])
      ensures tokens != null && r == OK ==>
                tokens[..] == old(tokens[..])[old(toknext) := Token(Primitive, old(pos), pos + 1, 0, toksuper)]
      ensures r == OK && tokens != null ==> toknext == old(toknext) + 1
    {
      var start := pos;
      while pos < |js| && js[pos] != '\0'
        invariant start <= pos <= |js| && toksuper == old(toksuper) && toknext == old(toknext)
        invariant PrimitiveEnd(js, pos) == PrimitiveEnd(js, start)
        invariant pos == start ==> !AtEnd(js, pos) && !EndsPrimitive(js[pos])
        invariant tokens != null ==> tokens[..] == old(tokens[..])
      {
        if js[pos] == ':' || js[pos] == '\t' || js[pos] == '\r' || js[pos] == '\n' || js[pos] == ' '
           || js[pos] == ',' || js[pos] == ']' || js[pos] == '}' {
          break;
        }
        if js[pos] as int < 32 || js[pos] as int >= 127 {
          pos := start;
          return INVAL;
        }
        pos := pos + 1;
      }
      if tokens == null {
        pos := pos - 1;
        return OK;
      }
      var tok := AllocToken(tokens, numTokens);
      if tok == -1 {
        pos := start;
        return NOMEM;
      }
      FillToken(tokens, tok, Primitive, start, pos);
      tokens[tok] := tokens[tok].(parent := toksuper);
      pos := pos - 1;
      return OK;
    }

    /** jsmn_parse_string; `pos` is left on the closing quote. */
    method ParseString(js: string, tokens: array?<Token>, numTokens: nat) returns (r: int)
      requires !AtEnd(js, pos) && js[pos] == '\"'
      requires tokens != null ==> Valid(tokens, numTokens)
      modifies this, tokens
      ensures var lex := StringLexeme(js, old(pos) + 1);
        if lex == Bad then r == INVAL && pos == old(pos)
        else if lex == Cut then r == PART && pos == old(pos)
        else if tokens != null && old(toknext) >= numTokens then r == NOMEM && pos == old(pos)
        else r == OK && pos == lex.end
      ensures toksuper == old(toksuper)
      ensures r != OK || tokens == null ==> toknext == old(toknext)
      ensures tokens != null ==> Fits(tokens, numTokens)
      ensures tokens != null && r != OK ==> tokens[..] == old(tokens[..])
      ensures tokens != null && r == OK ==>
                tokens[..] == old(tokens[..])[old(toknext) := Token(String, old(pos) + 1, pos, 0, toksuper)]
      ensures r == OK && tokens != null ==> toknext == old(toknext) + 1
    {
      var start := pos;
      pos := pos + 1;
      while pos < |js| && js[pos] != '\0'
        invariant start < pos && toksuper == old(toksuper) && toknext == old(toknext)
        invariant StringLexeme(js, pos) == StringLexeme(js, start + 1)
        invariant tokens != null ==> tokens[..] == old(tokens[..])
        decreases |js| - pos
      {
        var c := js[pos];
        if c == '\"' {
          if tokens == null {
            return OK;
          }
          var tok := AllocToken(tokens, numTokens);
          if tok == -1 {
            pos := start;
            return NOMEM;
          }
          FillToken(tokens, tok, String, start + 1, pos);
          tokens[tok] := tokens[tok].(parent := toksuper);
          return OK;
        }
        if c == '\\' && pos + 1 < |js| {
          var ok := Escape(js);
          if !ok {
            pos := start;
            return INVAL;
          }
        }
        pos := pos + 1;
      }
      pos := start;
      return PART;
    }

    /** The symbol after a backslash; `pos` is left on the last character read. */
    method Escape(js: string) returns (ok: bool)
      requires pos + 1 < |js| && js[pos] == '\\'
      modifies this`pos
      ensures var j := HexEnd(js, old(pos) + 2, 4);
        if IsEscape(js[old(pos) + 1]) then ok && pos == old(pos) + 1
        else if js[old(pos) + 1] == 'u' && j != -1 then ok && pos == j - 1
        else !ok
    {
      pos := pos + 1;
      if IsEscape(js[pos]) {
      } else if js[pos] == 'u' {
        pos := pos + 1;
        ghost var end := HexEnd(js, pos, 4);
        var i := 0;
        while i < 4 && pos < |js| && js[pos] != '\0'
          invariant 0 <= i <= 4
          invariant HexEnd(js, pos, 4 - i) == end
        {
          if !IsHex(js[pos]) {
            return false;
          }
          pos := pos + 1;
          i := i + 1;
        }
        pos := pos - 1;
      } else {
        return false;
      }
      return true;
    }

    /** The case for an opening bracket. */
    method OpenBracket(c: char, tokens: array<Token>, numTokens: nat) returns (r: int)
      requires Valid(tokens, numTokens) && (c == '{' || c == '[')
      modifies this, tokens
      ensures Fits(tokens, numTokens) && pos == old(pos)
      ensures var a := Apply(variant, numTokens, old(Abs(tokens)), Open(if c == '{' then Object else Array));
        if a.Go? then r == OK && Abs(tokens).(pos := pos + 1) == a.st && toknext == old(toknext) + 1
        else r == NOMEM && Abs(tokens) == old(Abs(tokens))
      ensures tokens[toknext..] == old(tokens[..])[toknext..]
    {
      var tok := AllocToken(tokens, numTokens);
      if tok == -1 {
        return NOMEM;
      }
      if toksuper != -1 {
        tokens[toksuper] := tokens[toksuper].(size := tokens[toksuper].size + 1);
        tokens[tok] := tokens[tok].(parent := toksuper);
      }
      tokens[tok] := tokens[tok].(typ := if c == '{' then Object else Array);
      tokens[tok] := tokens[tok].(start := pos);
      toksuper := toknext - 1;
      assert tokens[..toknext] == Allocate(old(Abs(tokens)), Open(if c == '{' then Object else Array));
      return OK;
    }

    /** The case for a closing bracket. */
    method CloseBracket(c: char, tokens: array<Token>, ghost numTokens: nat) returns (r: int)
      requires Valid(tokens, numTokens) && (c == '}' || c == ']')
      modifies this`toksuper, tokens
      ensures var a := ApplyClose(variant, old(Abs(tokens)), if c == '}' then Object else Array);
        if a.Go? then r == OK && Abs(tokens).(pos := pos + 1) == a.st
        else r == INVAL && Abs(tokens) == old(Abs(tokens))
      ensures tokens[toknext..] == old(tokens[..])[toknext..]
    {
      var typ := if c == '}' then Object else Array;
      if variant == Links {
        r := CloseByLinks(typ, tokens, numTokens);
      } else {
        r := CloseByScan(typ, tokens, numTokens);
      }
    }

    /** Follows the parents of the last token to an open one. */
    method CloseByLinks(typ: TokenType, tokens: array<Token>, ghost numTokens: nat) returns (r: int)
      requires Valid(tokens, numTokens) && variant == Links
      modifies this`toksuper, tokens
      ensures var a := ApplyClose(variant, old(Abs(tokens)), typ);
        if a.Go? then r == OK && Abs(tokens).(pos := pos + 1) == a.st
        else r == INVAL && Abs(tokens) == old(Abs(tokens))
      ensures tokens[toknext..] == old(tokens[..])[toknext..]
    {
      ghost var toks := tokens[..toknext];
      if toknext < 1 {
        return INVAL;
      }
      var tok := toknext - 1;
      while true
        invariant 0 <= tok < toknext && tokens[..] == old(tokens[..]) && toksuper == old(toksuper)
        invariant OpenAncestor(toks, tok) == OpenAncestor(toks, toknext - 1)
        decreases tok
      {
        assert tokens[tok] == toks[tok];
        if tokens[tok].start != -1 && tokens[tok].end == -1 {
          if tokens[tok].typ != typ {
            return INVAL;
          }
          tokens[tok] := tokens[tok].(end := pos + 1);
          toksuper := tokens[tok].parent;
          assert tokens[..toknext] == CloseToken(toks, tok, pos + 1);
          break;
        }
        if tokens[tok].parent == -1 {
          break;
        }
        tok := tokens[tok].parent;
      }
      return OK;
    }

    /** Scans back for the last open token, and on for the one around it. */
    method CloseByScan(typ: TokenType, tokens: array<Token>, ghost numTokens: nat) returns (r: int)
      requires Valid(tokens, numTokens) && variant == Scan
      modifies this`toksuper, tokens
      ensures var a := ApplyClose(variant, old(Abs(tokens)), typ);
        if a.Go? then r == OK && Abs(tokens).(pos := pos + 1) == a.st
        else r == INVAL && Abs(tokens) == old(Abs(tokens))
      ensures tokens[toknext..] == old(tokens[..])[toknext..]
    {
      ghost var toks := tokens[..toknext];
      var i := toknext - 1;
      while i >= 0
        invariant -1 <= i < toknext && tokens[..] == old(tokens[..]) && toksuper == old(toksuper)
        invariant forall k :: i < k < toknext ==> !IsOpen(tokens[k])
      {
        if tokens[i].start != -1 && tokens[i].end == -1 {
          break;
        }
        i := i - 1;
      }
      assert i == LastOpen(toks) by {
        assert i >= 0 ==> IsOpen(toks[i]);
        assert forall k :: i < k < toknext ==> !IsOpen(toks[k]);
      }
      if i >= 0 {
        if tokens[i].typ != typ {
          return INVAL;
        }
        toksuper := -1;
        tokens[i] := tokens[i].(end := pos + 1);
      }
      if i == -1 {
        return INVAL;
      }
      ghost var closed := CloseToken(toks, i, pos + 1);
      assert tokens[..toknext] == closed;
      while i >= 0
        invariant -1 <= i < toknext && tokens[..toknext] == closed && toksuper == -1
        invariant tokens[toknext..] == old(tokens[..])[toknext..]
        invariant forall k :: i < k < toknext ==> !IsOpen(closed[k])
      {
        assert tokens[i] == closed[i];
        if tokens[i].start != -1 && tokens[i].end == -1 {
          toksuper := i;
          break;
        }
        i := i - 1;
      }
      assert toksuper == LastOpen(closed);
      return OK;
    }

    /**
     * The case for a comma: back to the container after a value that belonged to a key. Without a
     * super token the code reads the memory in front of the array, `outside`; in the default build it
     * makes no difference what is there.
     */
    method Comma(tokens: array<Token>, ghost numTokens: nat, outside: TokenType)
      requires Valid(tokens, numTokens) && Nested(Abs(tokens)) && (variant == Links ==> toksuper != -1)
      modifies this`toksuper
      ensures Apply(variant, numTokens, old(Abs(tokens)), Lexeme.Comma) == Go(Abs(tokens).(pos := pos + 1))
    {
      ghost var toks := tokens[..toknext];
      if toksuper == -1 { AtTopLevelNothingIsOpen(Abs(tokens)); }
      var typ := if toksuper == -1 then outside else tokens[toksuper].typ;
      if typ != Array && typ != Object {
        assert toksuper != -1 ==> toks[toksuper] == tokens[toksuper];
        if variant == Links {
          toksuper := tokens[toksuper].parent;
        } else {
          var i := toknext - 1;
          while i >= 0
            invariant -1 <= i < toknext && toksuper == old(toksuper)
            invariant forall k :: i < k < toknext ==> !IsOpen(toks[k])
          {
            assert tokens[i] == toks[i];
            if tokens[i].typ == Array || tokens[i].typ == Object {
              if tokens[i].start != -1 && tokens[i].end == -1 {
                toksuper := i;
                break;
              }
            }
            i := i - 1;
          }
          assert i == LastOpen(toks);
        }
      }
    }

    /** One more child for the super token, if there is one and an array to count in. */
    method CountChild(tokens: array?<Token>)
      requires tokens != null ==> -1 <= toksuper < toknext <= tokens.Length
      modifies tokens
      ensures tokens != null ==> tokens[..toknext] == Bump(old(tokens[..toknext]), toksuper)
      ensures tokens != null ==> tokens[toknext..] == old(tokens[..])[toknext..]
    {
      if toksuper != -1 && tokens != null {
        tokens[toksuper] := tokens[toksuper].(size := tokens[toksuper].size + 1);
      }
    }

    /** What reading `lex` in place of the model's step means; `pos` has yet to move past it. */
    twostate predicate Steps(tokens: array<Token>, numTokens: nat, lex: Lexeme, r: int)
      requires old(Valid(tokens, numTokens))
      reads this, tokens
    {
      Fits(tokens, numTokens) && tokens[toknext..] == old(tokens[..])[toknext..] &&
      match Apply(variant, numTokens, old(Abs(tokens)), lex)
      case Go(st) => r == OK && Abs(tokens).(pos := pos + 1) == st
      case Halt(why) => why != Stray && r == StopCode(why) && Abs(tokens) == old(Abs(tokens))
    }

    /** Without a token array only the position moves. */
    twostate predicate StepsOver(lex: Lexeme, r: int)
      reads this
    {
      toknext == old(toknext) && toksuper == old(toksuper) &&
      if lex == Bad then r == INVAL && pos == old(pos)
      else if lex == Cut then r == PART && pos == old(pos)
      else r == OK && pos + 1 == After(old(pos), lex)
    }

    /** The case for a quote. */
    method StringValue(js: string, tokens: array?<Token>, numTokens: nat) returns (r: int)
      requires !AtEnd(js, pos) && js[pos] == '\"'
      requires tokens != null ==> Valid(tokens, numTokens)
      modifies this, tokens
      ensures tokens != null ==> Steps(tokens, numTokens, LexemeAt(js, old(pos)), r)
      ensures tokens == null ==> StepsOver(LexemeAt(js, old(pos)), r)
    {
      r := ParseString(js, tokens, numTokens);
      if r < 0 {
        return;
      }
      if tokens != null { assert tokens[..old(toknext)] == old(tokens[..toknext]); }
      CountChild(tokens);
    }

    /** The default case. */
    method PrimitiveValue(js: string, tokens: array?<Token>, numTokens: nat) returns (r: int)
      requires !AtEnd(js, pos) && LexemeAt(js, pos) == PrimitiveLexeme(js, pos) && !EndsPrimitive(js[pos])
      requires tokens != null ==> Valid(tokens, numTokens)
      modifies this, tokens
      ensures tokens != null ==> Steps(tokens, numTokens, LexemeAt(js, old(pos)), r)
      ensures tokens == null ==> StepsOver(LexemeAt(js, old(pos)), r)
    {
      r := ParsePrimitive(js, tokens, numTokens);
      if r < 0 {
        return;
      }
      if tokens != null { assert tokens[..old(toknext)] == old(tokens[..toknext]); }
      CountChild(tokens);
    }

    /** The switch on the character at `pos`; `counted` says whether `count` goes up. */
    method Dispatch(js: string, tokens: array?<Token>, numTokens: nat, outside: TokenType)
      returns (r: int, counted: bool)
      requires !AtEnd(js, pos)
      requires tokens != null ==> Valid(tokens, numTokens) && Nested(Abs(tokens))
      requires tokens != null && variant == Links && js[pos] == ',' ==> toksuper != -1
      requires tokens == null ==> toknext == 0 && toksuper == -1
      modifies this, tokens
      ensures r == OK ==> counted == MakesToken(LexemeAt(js, old(pos)))
      ensures tokens != null ==> Steps(tokens, numTokens, LexemeAt(js, old(pos)), r)
      ensures tokens == null ==> StepsOver(LexemeAt(js, old(pos)), r)
    {
      var c := js[pos];
      r, counted := OK, false;
      if c == '{' || c == '[' {
        counted := true;
        if tokens != null {
          r := OpenBracket(c, tokens, numTokens);
        }
      } else if c == '}' || c == ']' {
        if tokens != null {
          r := CloseBracket(c, tokens, numTokens);
        }
      } else if c == '\"' {
        r := StringValue(js, tokens, numTokens);
        counted := true;
      } else if IsBlank(c) {
      } else if c == ':' {
        toksuper := toknext - 1;
      } else if c == ',' {
        if tokens != null {
          Comma(tokens, numTokens, outside);
        }
      } else {
        r := PrimitiveValue(js, tokens, numTokens);
        counted := true;
      }
    }

    /** One turn of the loop of jsmn_parse with a token array: the switch, then `pos++`. */
    method FillTurn(js: string, tokens: array<Token>, numTokens: nat, before: nat, outside: TokenType)
      returns (r: int, count: nat)
      requires !AtEnd(js, pos) && Ready(js, tokens, numTokens)
      modifies this, tokens
      ensures Valid(tokens, numTokens) && Nested(Abs(tokens)) && old(toknext) <= toknext
      ensures tokens[toknext..] == old(tokens[..])[toknext..]
      ensures r >= 0 ==> old(pos) < pos <= |js| && count - before == toknext - old(toknext)
      ensures r >= 0 ==> Ahead(js, tokens, numTokens) == old(Ahead(js, tokens, numTokens))
      ensures r < 0 ==> r == StopCode(CodeStop(r))
                        && old(Ahead(js, tokens, numTokens)) == Result(Abs(tokens), CodeStop(r))
    {
      ghost var a := Apply(variant, numTokens, Abs(tokens), LexemeAt(js, pos));
      TurnKeepsNested(variant, js, numTokens, Abs(tokens));
      var counted;
      r, counted := Dispatch(js, tokens, numTokens, outside);
      count := before;
      if r < 0 { return; }
      if counted { count := count + 1; }
      pos := pos + 1;
      assert Abs(tokens) == a.st;
    }

    /** The same turn without a token array. */
    method CountTurn(js: string, before: nat, outside: TokenType) returns (r: int, count: nat)
      requires !AtEnd(js, pos) && toknext == 0 && toksuper == -1
      modifies this
      ensures toknext == 0 && toksuper == -1
      ensures r >= 0 ==> old(pos) < pos <= |js| && CountRun(js, pos, count) == CountRun(js, old(pos), before)
      ensures r < 0 ==> r == StopCode(CodeStop(r)) && CountRun(js, old(pos), before) == Count(pos, before, CodeStop(r))
    {
      var counted;
      r, counted := Dispatch(js, null, 0, outside);
      count := before;
      if r < 0 { return; }
      if counted { count := count + 1; }
      pos := pos + 1;
    }

    /**
     * jsmn_parse. With a token array the call is Run; without one it is CountRun.
     * `numTokens` bounds the tokens used, and slots past `toknext` keep their contents. Whatever
     * stands in front of the array, `outside`, the default build ends the same; the other build must
     * not meet a comma without a super token.
     */
    method Parse(js: string, tokens: array?<Token>, numTokens: nat, outside: TokenType) returns (r: int)
      requires tokens != null ==> Ready(js, tokens, numTokens)
      requires tokens == null ==> toknext == 0 && toksuper == -1
      modifies this, tokens
      ensures tokens != null ==> Valid(tokens, numTokens) && Nested(Abs(tokens))
      ensures tokens != null ==> var result := Run(variant, js, numTokens, old(Abs(tokens)));
                                 Abs(tokens) == result.st && r == ReturnCode(old(Abs(tokens)), result)
      ensures tokens != null ==> tokens[toknext..] == old(tokens[..])[toknext..]
      ensures tokens == null ==> toknext == 0 && toksuper == -1
      ensures tokens == null ==> var c := CountRun(js, old(pos), 0);
                                 pos == c.pos && r == CountCode(c)
    {
      var count := 0;
      while pos < |js| && js[pos] != '\0'
        invariant tokens != null ==> old(toknext) <= toknext
        invariant tokens != null ==> Ready(js, tokens, numTokens) && count == toknext - old(toknext)
        invariant tokens != null ==> Ahead(js, tokens, numTokens) == old(Ahead(js, tokens, numTokens))
        invariant tokens != null ==> tokens[toknext..] == old(tokens[..])[toknext..]
        invariant tokens == null ==> toknext == 0 && toksuper == -1 && count >= 0
        invariant tokens == null ==> CountRun(js, pos, count) == CountRun(js, old(pos), 0)
        decreases |js| - pos
      {
        if tokens != null {
          ghost var was, from := tokens[..], toknext;
          r, count := FillTurn(js, tokens, numTokens, count, outside);
          SameFrom(old(tokens[..]), was, tokens[..], from, toknext);
        } else {
          r, count := CountTurn(js, count, outside);
        }
        if r < 0 { return r; }
      }
      if tokens != null {
        RunIsOver(variant, js, numTokens, old(Abs(tokens)), Abs(tokens));
        var unfinished := HasOpen(tokens);
        if unfinished { return PART; }
      }
      return count;
    }

    /** The last loop of jsmn_parse: is some object or array unclosed? */
    method HasOpen(tokens: array<Token>) returns (r: bool)
      requires toknext <= tokens.Length
      ensures r <==> LastOpen(tokens[..toknext]) != -1
    {
      var i := toknext - 1;
      while i >= 0
        invariant -1 <= i < toknext
        invariant forall k :: i < k < toknext ==> !IsOpen(tokens[..toknext][k])
      {
        assert tokens[i] == tokens[..toknext][i];
        if tokens[i].start != -1 && tokens[i].end == -1 {
          return true;
        }
        i := i - 1;
      }
      return false;
    }
  }
}
