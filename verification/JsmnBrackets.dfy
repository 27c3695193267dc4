/**
 * jsmn keeps no stack: it looks back over the tokens. Here the open tokens, in
 * order and with their positions, are shown to be the stack of a machine that
 * reads the same text, in every state that a call of either build leads to.
 */
module JsmnBrackets {
  import opened Memory
  import opened JsmnModel
  import opened JsmnInvariants
  import opened JsmnPieces

  datatype Bracket = Bracket(opening: bool, typ: TokenType)

  /** Matched brackets, as trees. */
  datatype Forest = Leaf | Tree(typ: TokenType, inside: Forest, after: Forest)

  ghost function BracketWord(f: Forest): seq<Bracket> {
    match f
    case Leaf => []
    case Tree(t, inside, after) => [Bracket(true, t)] + BracketWord(inside) + [Bracket(false, t)] + BracketWord(after)
  }

  ghost predicate Balanced(w: seq<Bracket>) { exists f :: BracketWord(f) == w }

  type Stack = seq<TokenType>

  /** The bracket machine: None is an error, and the top of the stack is its last element. */
  ghost function Machine(s: Stack, w: seq<Bracket>): Option<Stack>
    decreases |w|
  {
    if w == [] then Some(s)
    else if w[0].opening then Machine(s + [w[0].typ], w[1..])
    else if s != [] && s[|s| - 1] == w[0].typ then Machine(s[..|s| - 1], w[1..])
    else None
  }

  lemma {:induction false} MachineOnForest(f: Forest, s: Stack, w: seq<Bracket>)
    ensures Machine(s, BracketWord(f) + w) == Machine(s, w)
    decreases f
  {
    match f
    case Leaf => assert BracketWord(f) + w == w;
    case Tree(t, inside, after) =>
      var rest := BracketWord(after) + w;
      var all := BracketWord(f) + w;
      assert all[0] == Bracket(true, t) && all[1..] == BracketWord(inside) + ([Bracket(false, t)] + rest);
      MachineOnForest(inside, s + [t], [Bracket(false, t)] + rest);
      assert ([Bracket(false, t)] + rest)[1..] == rest && (s + [t])[..|s|] == s;
      MachineOnForest(after, s, w);
  }

  /** The bracket that closes the top of the stack, then `rest`; nothing when the stack is empty. */
  ghost function Closing(s: Stack, rest: seq<Bracket>): seq<Bracket> {
    if s == [] then [] else [Bracket(false, s[|s| - 1])] + rest
  }

  lemma TreeThen(t: TokenType, inside: Forest, after: Forest, tail: seq<Bracket>)
    ensures [Bracket(true, t)] + (BracketWord(inside) + ([Bracket(false, t)] + (BracketWord(after) + tail))) ==
            BracketWord(Tree(t, inside, after)) + tail
  {
  }

  /** What empties the stack is a forest, then the bracket that closes its top, and so on. */
  lemma {:induction false} MachineBuildsForest(s: Stack, w: seq<Bracket>) returns (f: Forest, rest: seq<Bracket>)
    requires Machine(s, w) == Some([])
    ensures w == BracketWord(f) + Closing(s, rest)
    ensures s != [] ==> Machine(s[..|s| - 1], rest) == Some([])
    decreases |w|
  {
    f, rest := Leaf, [];
    if w != [] {
      var t := w[0].typ;
      if w[0].opening {
        var inside, after := MachineBuildsForest(s + [t], w[1..]);
        assert (s + [t])[..|s|] == s;
        var f2, rest2 := MachineBuildsForest(s, after);
        f, rest := Tree(t, inside, f2), rest2;
        TreeThen(t, inside, f2, Closing(s, rest2));
        assert w == [w[0]] + w[1..];
      } else {
        rest := w[1..];
        assert w == BracketWord(Leaf) + ([Bracket(false, t)] + rest);
      }
    }
  }

  lemma BalancedIffMachineAccepts(w: seq<Bracket>)
    ensures Balanced(w) <==> Machine([], w) == Some([])
  {
    if Balanced(w) {
      var f :| BracketWord(f) == w;
      MachineOnForest(f, [], []);
      assert w + [] == w;
    }
    if Machine([], w) == Some([]) {
      var f, _ := MachineBuildsForest([], w);
    }
  }

  // ----------------------------------------------- brackets that close nothing

  /** The brackets without the closing ones that come when nothing is open; `d` are open to begin with. */
  ghost function WithoutSurplus(d: nat, w: seq<Bracket>): seq<Bracket>
    decreases |w|
  {
    if w == [] then []
    else if w[0].opening then [w[0]] + WithoutSurplus(d + 1, w[1..])
    else if d == 0 then WithoutSurplus(0, w[1..])
    else [w[0]] + WithoutSurplus(d - 1, w[1..])
  }

  /** The brackets a build takes notice of. */
  ghost function Noticed(v: Variant, d: nat, w: seq<Bracket>): seq<Bracket> {
    if v == Scan then w else WithoutSurplus(d, w)
  }

  // ------------------------------------------------------ the machine on pieces

  /** An open bracket: its type, where it stands in the text, and the index of its token. */
  datatype Mark = Mark(typ: TokenType, at: int, index: nat)

  /** The open brackets, the innermost last, and the number of tokens so far. */
  datatype Outline = Outline(open: seq<Mark>, count: nat)

  predicate IsToken(p: Piece) { p.OpenBracket? || p.Text? || p.Word? }

  /** One piece, standing at `at`; None is an error. */
  ghost function FollowPiece(v: Variant, o: Outline, p: Piece, at: nat): Option<Outline> {
    match p
    case OpenBracket(curly) => Some(Outline(o.open + [Mark(TypeFor(curly), at, o.count)], o.count + 1))
    case CloseBracket(curly) =>
      if o.open == [] then (if v == Links && o.count > 0 then Some(o) else None)
      else if o.open[|o.open| - 1].typ == TypeFor(curly) then Some(o.(open := o.open[..|o.open| - 1]))
      else None
    case Text(_) => Some(o.(count := o.count + 1))
    case Word(_) => Some(o.(count := o.count + 1))
    case _ => Some(o)
  }

  ghost function Follow(v: Variant, o: Outline, ps: seq<Piece>, at: nat): Option<Outline>
    decreases |ps|
  {
    if ps == [] then Some(o)
    else match FollowPiece(v, o, ps[0], at)
      case None => None
      case Some(next) => Follow(v, next, ps[1..], at + |Spell(ps[0])|)
  }

  const START := Outline([], 0)

  ghost function BracketOf(p: Piece): seq<Bracket> {
    if p.OpenBracket? then [Bracket(true, TypeFor(p.curly))]
    else if p.CloseBracket? then [Bracket(false, TypeFor(p.curly))]
    else []
  }

  ghost function BracketsOf(ps: seq<Piece>): seq<Bracket> {
    if ps == [] then [] else BracketOf(ps[0]) + BracketsOf(ps[1..])
  }

  ghost function TokenCount(ps: seq<Piece>): nat {
    if ps == [] then 0 else (if IsToken(ps[0]) then 1 else 0) + TokenCount(ps[1..])
  }

  /** No closing bracket comes before the first token. */
  ghost predicate StartsWithToken(ps: seq<Piece>) {
    ps == [] || IsToken(ps[0]) || (!ps[0].CloseBracket? && StartsWithToken(ps[1..]))
  }

  ghost function TypesOf(marks: seq<Mark>): Stack {
    if marks == [] then [] else TypesOf(marks[..|marks| - 1]) + [marks[|marks| - 1].typ]
  }

  lemma TypesOfMore(marks: seq<Mark>, m: Mark)
    ensures TypesOf(marks + [m]) == TypesOf(marks) + [m.typ]
  {
    assert (marks + [m])[..|marks|] == marks;
  }

  lemma {:induction false} TypesOfLength(marks: seq<Mark>)
    ensures |TypesOf(marks)| == |marks|
  {
    if marks != [] { TypesOfLength(marks[..|marks| - 1]); }
  }

  ghost predicate HasTokens(v: Variant, o: Outline, ps: seq<Piece>) {
    v == Links && o.count == 0 ==> StartsWithToken(ps)
  }

  /** The machine of brackets, from the open brackets of an outline. */
  ghost function OnBrackets(v: Variant, o: Outline, w: seq<Bracket>): Option<Stack> {
    Machine(TypesOf(o.open), Noticed(v, |o.open|, w))
  }

  /** The machine on pieces is the machine on the brackets the build takes notice of. */
  lemma {:induction false} FollowIsMachine(v: Variant, o: Outline, ps: seq<Piece>, at: nat)
    requires o.open != [] ==> o.count > 0
    ensures var f, m := Follow(v, o, ps, at), OnBrackets(v, o, BracketsOf(ps));
      && (f.Some? <==> m.Some? && HasTokens(v, o, ps))
      && (f.Some? ==> TypesOf(f.value.open) == m.value)
    decreases |ps|
  {
    if ps != [] {
      PieceIsMachine(v, o, ps[0], at, BracketsOf(ps[1..]));
      match FollowPiece(v, o, ps[0], at)
      case None =>
      case Some(next) =>
        var after := at + |Spell(ps[0])|;
        FollowUnfolds(v, o, ps, at, next, after);
        FollowIsMachine(v, next, ps[1..], after);
    }
  }

  /** With parent links, a closing bracket before the first token. */
  ghost predicate TooEarly(v: Variant, o: Outline, p: Piece) { v == Links && o.count == 0 && p.CloseBracket? }

  lemma PieceIsMachine(v: Variant, o: Outline, p: Piece, at: nat, w: seq<Bracket>)
    requires o.open != [] ==> o.count > 0
    ensures var f, m := FollowPiece(v, o, p, at), OnBrackets(v, o, BracketOf(p) + w);
      if f == None then m == None || TooEarly(v, o, p)
      else m == OnBrackets(v, f.value, w) && !TooEarly(v, o, p)
           && o.count <= f.value.count && (f.value.open != [] ==> f.value.count > 0)
  {
    TypesOfLength(o.open);
    if p.OpenBracket? {
      OpenIsMachine(v, o, TypeFor(p.curly), at, w);
    } else if p.CloseBracket? {
      CloseIsMachine(v, o, TypeFor(p.curly), w);
    } else {
      assert BracketOf(p) + w == w;
    }
  }

  lemma OpenIsMachine(v: Variant, o: Outline, t: TokenType, at: nat, w: seq<Bracket>)
    ensures OnBrackets(v, o, [Bracket(true, t)] + w)
            == OnBrackets(v, Outline(o.open + [Mark(t, at, o.count)], o.count + 1), w)
  {
    TypesOfMore(o.open, Mark(t, at, o.count));
    assert ([Bracket(true, t)] + w)[1..] == w;
    var n := Noticed(v, |o.open| + 1, w);
    assert Noticed(v, |o.open|, [Bracket(true, t)] + w) == [Bracket(true, t)] + n;
    assert ([Bracket(true, t)] + n)[1..] == n;
  }

  lemma CloseIsMachine(v: Variant, o: Outline, t: TokenType, w: seq<Bracket>)
    requires |TypesOf(o.open)| == |o.open|
    ensures var m, open := OnBrackets(v, o, [Bracket(false, t)] + w), o.open;
      if open == [] then m == if v == Links then OnBrackets(v, o, w) else None
      else if open[|open| - 1].typ == t then m == OnBrackets(v, o.(open := open[..|open| - 1]), w)
      else m == None
  {
    var open := o.open;
    assert ([Bracket(false, t)] + w)[1..] == w;
    if open != [] {
      var n := Noticed(v, |open| - 1, w);
      assert Noticed(v, |open|, [Bracket(false, t)] + w) == [Bracket(false, t)] + n;
      assert ([Bracket(false, t)] + n)[1..] == n;
    }
  }

  // -------------------------------------------------- the tokens as the stack

  /** The open tokens, in order. */
  ghost function OpenMarks(toks: seq<Token>): seq<Mark> {
    if toks == [] then []
    else
      var n := |toks| - 1;
      OpenMarks(toks[..n]) + (if IsOpen(toks[n]) then [Mark(toks[n].typ, toks[n].start, n)] else [])
  }

  ghost function OutlineOf(st: State): Outline { Outline(OpenMarks(st.toks), |st.toks|) }

  lemma {:induction false} SameOpenMarks(a: seq<Token>, b: seq<Token>)
    requires |a| == |b|
    requires forall k :: 0 <= k < |a| ==>
                           IsOpen(a[k]) == IsOpen(b[k]) && a[k].typ == b[k].typ && a[k].start == b[k].start
    ensures OpenMarks(a) == OpenMarks(b)
    decreases |a|
  {
    if a != [] { SameOpenMarks(a[..|a| - 1], b[..|b| - 1]); }
  }

  /** The last open token is the top of the stack, and closing it pops. */
  lemma {:induction false} LastOpenIsTop(toks: seq<Token>, end: nat)
    ensures LastOpen(toks) == -1 <==> OpenMarks(toks) == []
    ensures LastOpen(toks) != -1 ==>
              var s, x := OpenMarks(toks), LastOpen(toks);
              s[|s| - 1] == Mark(toks[x].typ, toks[x].start, x) && OpenMarks(CloseToken(toks, x, end)) == s[..|s| - 1]
    decreases |toks|
  {
    if toks != [] {
      var n := |toks| - 1;
      var x := LastOpen(toks);
      LastOpenIsTop(toks[..n], end);
      if x == n {
        assert CloseToken(toks, x, end)[..n] == toks[..n];
      } else if x != -1 {
        assert LastOpen(toks[..n]) == x;
        assert CloseToken(toks, x, end)[..n] == CloseToken(toks[..n], x, end);
      }
    }
  }

  lemma AllocatePushes(st: State, lex: Lexeme)
    requires Wf(st) && MakesToken(lex)
    ensures OpenMarks(Allocate(st, lex))
            == OpenMarks(st.toks) + (if lex.Open? then [Mark(lex.typ, st.pos, |st.toks|)] else [])
  {
    var toks := Allocate(st, lex);
    SameOpenMarks(toks[..|st.toks|], st.toks);
  }

  /** One piece moves the open tokens as it moves the machine. */
  lemma PieceIsFollowed(v: Variant, cap: nat, st: State, p: Piece)
    requires Wf(st) && Nested(st)
    ensures var f := FollowPiece(v, OutlineOf(st), p, st.pos);
      match Apply(v, cap, st, LexemeOf(p, st.pos))
      case Go(next) => f == Some(OutlineOf(next)) && (IsToken(p) ==> |st.toks| < cap)
      case Halt(why) => if why == NoMem then IsToken(p) && |st.toks| >= cap else why == Stray || f == None
  {
    if p.CloseBracket? {
      CloseIsFollowed(v, st, TypeFor(p.curly));
    } else if IsToken(p) {
      TokenIsFollowed(v, cap, st, p);
    }
  }

  lemma TokenIsFollowed(v: Variant, cap: nat, st: State, p: Piece)
    requires Wf(st) && IsToken(p)
    ensures var a, f := Apply(v, cap, st, LexemeOf(p, st.pos)), FollowPiece(v, OutlineOf(st), p, st.pos);
      if |st.toks| < cap then a.Go? && f == Some(OutlineOf(a.st)) else a == Halt(NoMem)
  {
    AllocatePushes(st, LexemeOf(p, st.pos));
    assert OpenMarks(st.toks) + [] == OpenMarks(st.toks);
  }

  lemma CloseIsFollowed(v: Variant, st: State, t: TokenType)
    requires Wf(st) && Nested(st) && IsContainer(t)
    ensures var f := FollowPiece(v, OutlineOf(st), CloseBracket(t == Object), st.pos);
      match ApplyClose(v, st, t)
      case Go(next) => f == Some(OutlineOf(next))
      case Halt(why) => why == Inval && f == None
  {
    LastOpenIsTop(st.toks, st.pos + 1);
  }

  /** What following pieces says of feeding them: `r` is how feeding ends, `f` the machine, `n` the tokens. */
  ghost predicate Agree(cap: nat, count: nat, n: nat, r: Result, f: Option<Outline>) {
    if r.why == EndOfText then f == Some(OutlineOf(r.st)) && |r.st.toks| == count + n && (n > 0 ==> count + n <= cap)
    else r.why == Stray || f == None || count + n > cap
  }

  lemma AgreeWithOneMore(cap: nat, count: nat, n: nat, r: Result, f: Option<Outline>, made: nat)
    requires made <= n && made <= 1 && (made == 1 ==> count < cap) && Agree(cap, count + made, n - made, r, f)
    ensures Agree(cap, count, n, r, f)
  {
  }

  lemma StepIsFollowed(v: Variant, cap: nat, st: State, p: Piece)
    requires Wf(st) && Nested(st)
    ensures match Apply(v, cap, st, LexemeOf(p, st.pos))
            case Go(next) =>
              && Wf(next) && Nested(next) && next.pos == st.pos + |Spell(p)|
              && FollowPiece(v, OutlineOf(st), p, st.pos) == Some(OutlineOf(next))
              && |next.toks| == |st.toks| + (if IsToken(p) then 1 else 0) && (IsToken(p) ==> |st.toks| < cap)
            case Halt(why) =>
              && why != EndOfText
              && (why == Stray || FollowPiece(v, OutlineOf(st), p, st.pos) == None || (IsToken(p) && |st.toks| >= cap))
  {
    PieceIsFollowed(v, cap, st, p);
    ApplyKeepsNested(v, cap, st, LexemeOf(p, st.pos));
    ApplyAllocates(v, cap, st, LexemeOf(p, st.pos));
    AfterPiece(p, st.pos);
  }

  lemma HaltIsFollowed(v: Variant, cap: nat, st: State, ps: seq<Piece>, why: Stop)
    requires Wf(st) && Nested(st) && ps != [] && Apply(v, cap, st, LexemeOf(ps[0], st.pos)) == Halt(why)
    ensures Agree(cap, |st.toks|, TokenCount(ps), Feed(v, cap, st, ps), Follow(v, OutlineOf(st), ps, st.pos))
  {
    StepIsFollowed(v, cap, st, ps[0]);
    assert Feed(v, cap, st, ps) == Result(st, why);
  }

  /** Feeding is following: it ends well only where the machine does not fail, and the open tokens are its stack. */
  lemma {:induction false} FeedIsFollowed(v: Variant, cap: nat, st: State, ps: seq<Piece>)
    requires Wf(st) && Nested(st)
    ensures Agree(cap, |st.toks|, TokenCount(ps), Feed(v, cap, st, ps), Follow(v, OutlineOf(st), ps, st.pos))
    decreases |ps|
  {
    if ps != [] {
      match Apply(v, cap, st, LexemeOf(ps[0], st.pos))
      case Go(next) =>
        StepIsFollowed(v, cap, st, ps[0]);
        FollowUnfolds(v, OutlineOf(st), ps, st.pos, OutlineOf(next), next.pos);
        FeedUnfolds(v, cap, st, ps, next);
        FeedIsFollowed(v, cap, next, ps[1..]);
        AgreeWithOneMore(cap, |st.toks|, TokenCount(ps), Feed(v, cap, next, ps[1..]),
                         Follow(v, OutlineOf(next), ps[1..], next.pos), |next.toks| - |st.toks|);
      case Halt(why) => HaltIsFollowed(v, cap, st, ps, why);
    }
  }

  lemma FollowUnfolds(v: Variant, o: Outline, ps: seq<Piece>, at: nat, next: Outline, after: nat)
    requires ps != [] && FollowPiece(v, o, ps[0], at) == Some(next) && after == at + |Spell(ps[0])|
    ensures Follow(v, o, ps, at) == Follow(v, next, ps[1..], after)
  {
  }

  lemma FeedUnfolds(v: Variant, cap: nat, st: State, ps: seq<Piece>, next: State)
    requires Wf(st) && Wf(next) && ps != [] && Apply(v, cap, st, LexemeOf(ps[0], st.pos)) == Go(next)
    ensures Feed(v, cap, st, ps) == Feed(v, cap, next, ps[1..])
  {
  }

  lemma AfterPiece(p: Piece, pos: nat)
    ensures After(pos, LexemeOf(p, pos)) == pos + |Spell(p)|
  {
  }

  /**
   * However a call ends, in any build and from any state that calls lead to: what it has read is pieces, and
   * following them from the open tokens there were leads to the open tokens there are, with their positions.
   */
  lemma OpenTokensAreTheStack(v: Variant, js: string, cap: nat, st: State) returns (ps: seq<Piece>)
    requires Wf(st) && Nested(st) && st.pos <= |js|
    ensures var r := Run(v, js, cap, st).st;
      && SpellsPart(ps, js, st.pos, r.pos)
      && Follow(v, OutlineOf(st), ps, st.pos) == Some(OutlineOf(r))
      && |r.toks| == |st.toks| + TokenCount(ps)
  {
    ps := RunReads(v, js, cap, st);
    FeedIsFollowed(v, cap, st, ps);
  }
}
