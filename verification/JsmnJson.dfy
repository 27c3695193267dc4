/**
 * JSON values with their white space, how they are printed, and the tokens that
 * describe a printed value: in preorder, with spans, sizes and parents.
 */
module JsmnJson {
  import opened Memory
  import opened JsmnModel
  import opened JsmnPieces

  /** A word is a number or literal; `ws`, `after`, `before` and so on are white space. */
  datatype Json = JWord(text: string) | JText(body: string)
                | JArray(ws: string, elems: Elems) | JObject(ws: string, members: Members)

  /** `before` stands after the comma and is not used when nothing follows. */
  datatype Elems = NoElems | Elem(v: Json, after: string, before: string, rest: Elems)

  datatype Members = NoMembers
                   | Member(key: string, beforeColon: string, afterColon: string, value: Json,
                            after: string, before: string, rest: Members)

  datatype Document = Document(leading: string, root: Json, trailing: string)

  /** The white space of RFC 8259, section 2. */
  predicate IsWhite(s: string) { forall i :: 0 <= i < |s| ==> s[i] in {' ', '\t', '\n', '\r'} }

  ghost predicate Legal(v: Json) {
    match v
    case JWord(text) => IsWord(text)
    case JText(body) => IsBody(body)
    case JArray(ws, elems) => IsWhite(ws) && LegalElems(elems)
    case JObject(ws, members) => IsWhite(ws) && LegalMembers(members)
  }

  ghost predicate LegalElems(es: Elems) {
    match es
    case NoElems => true
    case Elem(v, after, before, rest) => Legal(v) && IsWhite(after) && IsWhite(before) && LegalElems(rest)
  }

  ghost predicate LegalMembers(ms: Members) {
    match ms
    case NoMembers => true
    case Member(key, w1, w2, v, after, before, rest) =>
      IsBody(key) && IsWhite(w1) && IsWhite(w2) && Legal(v) && IsWhite(after) && IsWhite(before) && LegalMembers(rest)
  }

  ghost predicate LegalDocument(d: Document) {
    IsWhite(d.leading) && Legal(d.root) && IsWhite(d.trailing)
  }

  // ----------------------------------------- RFC 8259 scalars are words and bodies

  ghost predicate Digits(s: string) { s != "" && forall i :: 0 <= i < |s| ==> IsDigit(s[i]) }

  /** A number of section 6: an optional minus, an integer part, and perhaps a fraction and an exponent. */
  datatype Number = Number(minus: bool, whole: string, fraction: string, exponent: Exponent)

  datatype Exponent = NoExponent | Exponent(mark: char, sign: string, digits: string)

  ghost predicate ValidNumber(n: Number) {
    && Digits(n.whole) && (n.whole[0] == '0' ==> |n.whole| == 1)
    && (n.fraction != "" ==> Digits(n.fraction))
    && (n.exponent.Exponent? ==>
          (n.exponent.mark == 'e' || n.exponent.mark == 'E') && n.exponent.sign in {"", "+", "-"}
          && Digits(n.exponent.digits))
  }

  ghost function PrintNumber(n: Number): string {
    (if n.minus then "-" else "") + n.whole
    + (if n.fraction == "" then "" else "." + n.fraction)
    + (match n.exponent case NoExponent => "" case Exponent(mark, sign, digits) => [mark] + sign + digits)
  }

  lemma NumbersAreWords(n: Number)
    requires ValidNumber(n)
    ensures IsWord(PrintNumber(n))
  {
    var a := (if n.minus then "-" else "") + n.whole;
    var b := if n.fraction == "" then "" else "." + n.fraction;
    var c := match n.exponent case NoExponent => "" case Exponent(mark, sign, digits) => [mark] + sign + digits;
    assert PrintNumber(n) == a + b + c;
    assert forall i :: 0 <= i < |a| ==> IsDigit(a[i]) || a[i] == '-';
    assert forall i :: 0 <= i < |b| ==> IsDigit(b[i]) || b[i] == '.';
    assert forall i :: 0 <= i < |c| ==> IsDigit(c[i]) || c[i] in {'e', 'E', '+', '-'};
  }

  lemma LiteralsAreWords()
    ensures IsWord("true") && IsWord("false") && IsWord("null")
  {
  }

  /** A character of a string of section 7: as it is, after a backslash, or by four hexadecimal digits. */
  datatype StringChar = Plain(c: char) | Escaped(c: char) | Unicode(digits: string)

  predicate IsHexDigit(c: char) {
    c in {'0', '1', '2', '3', '4', '5', '6', '7', '8', '9', 'a', 'b', 'c', 'd', 'e', 'f', 'A', 'B', 'C', 'D', 'E', 'F'}
  }

  predicate ValidChar(x: StringChar) {
    match x
    case Plain(c) => c >= ' ' && c != '\"' && c != '\\'
    case Escaped(c) => c in {'\"', '\\', '/', 'b', 'f', 'n', 'r', 't'}
    case Unicode(digits) => |digits| == 4 && forall i :: 0 <= i < 4 ==> IsHexDigit(digits[i])
  }

  function PrintChar(x: StringChar): string {
    match x
    case Plain(c) => [c]
    case Escaped(c) => ['\\', c]
    case Unicode(digits) => "\\u" + digits
  }

  ghost function PrintChars(xs: seq<StringChar>): string {
    if xs == [] then "" else PrintChar(xs[0]) + PrintChars(xs[1..])
  }

  /** The contents of every string of the standard are those of a legal text. */
  lemma {:induction false} StringsAreBodies(xs: seq<StringChar>)
    requires forall i :: 0 <= i < |xs| ==> ValidChar(xs[i])
    ensures IsBody(PrintChars(xs))
    decreases |xs|
  {
    if xs != [] {
      StringsAreBodies(xs[1..]);
      CharThenBody(xs[0], PrintChars(xs[1..]));
    }
  }

  lemma CharThenBody(x: StringChar, rest: string)
    requires ValidChar(x) && IsBody(rest)
    ensures IsBody(PrintChar(x) + rest)
  {
    var s := PrintChar(x) + rest;
    assert s[|PrintChar(x)|..] == rest;
    assert x.Unicode? ==> s[2..6] == x.digits;
    assert x.Unicode? ==> forall i :: 2 <= i < 6 ==> s[i] == x.digits[i - 2];
  }

  /** The characters jsmn tells apart are those of the standard, one by one; a primitive ends at them and at signs. */
  lemma CharactersAreTold(c: char)
    ensures IsBlank(c) <==> c in {' ', '\t', '\n', '\r'}
    ensures IsEscape(c) <==> c in {'\"', '\\', '/', 'b', 'f', 'n', 'r', 't'}
    ensures IsHex(c) <==> IsHexDigit(c)
    ensures EndsPrimitive(c) <==> c in {' ', '\t', '\n', '\r', ':', ',', ']', '}'}
  {
  }

  // ---------------------------------------------------------------- printing

  ghost function Print(v: Json): string {
    match v
    case JWord(text) => text
    case JText(body) => "\"" + body + "\""
    case JArray(ws, elems) => "[" + (ws + (PrintElems(elems) + "]"))
    case JObject(ws, members) => "{" + (ws + (PrintMembers(members) + "}"))
  }

  ghost function PrintElems(es: Elems): string {
    match es
    case NoElems => ""
    case Elem(v, after, before, rest) =>
      Print(v) + (after + if rest.NoElems? then "" else "," + (before + PrintElems(rest)))
  }

  ghost function PrintMembers(ms: Members): string {
    match ms
    case NoMembers => ""
    case Member(key, w1, w2, v, after, before, rest) =>
      ("\"" + key + "\"") + (w1 + (":" + (w2 + (Print(v) + (after +
        if rest.NoMembers? then "" else "," + (before + PrintMembers(rest)))))))
  }

  ghost function PrintDocument(d: Document): string {
    d.leading + (Print(d.root) + d.trailing)
  }

  // ---------------------------------------------------- the expected tokens

  ghost function ElemCount(es: Elems): nat {
    if es.NoElems? then 0 else 1 + ElemCount(es.rest)
  }

  ghost function MemberCount(ms: Members): nat {
    if ms.NoMembers? then 0 else 1 + MemberCount(ms.rest)
  }

  /** Values and keys below and including `v`. */
  ghost function NodeCount(v: Json): nat {
    match v
    case JArray(_, elems) => 1 + ElemsNodeCount(elems)
    case JObject(_, members) => 1 + MembersNodeCount(members)
    case _ => 1
  }

  ghost function ElemsNodeCount(es: Elems): nat {
    if es.NoElems? then 0 else NodeCount(es.v) + ElemsNodeCount(es.rest)
  }

  ghost function MembersNodeCount(ms: Members): nat {
    if ms.NoMembers? then 0 else 1 + NodeCount(ms.value) + MembersNodeCount(ms.rest)
  }

  /** The tokens of `v` printed at `at`, when the first gets the index `index` and the parent `parent`. */
  ghost function Tokens(v: Json, at: nat, index: nat, parent: int): (r: seq<Token>)
    ensures |r| == NodeCount(v)
  {
    match v
    case JWord(text) => [Token(Primitive, at, at + |text|, 0, parent)]
    case JText(body) => [Token(String, at + 1, at + 1 + |body|, 0, parent)]
    case JArray(ws, elems) =>
      [Token(Array, at, at + |Print(v)|, ElemCount(elems), parent)]
      + ElemsTokens(elems, at + 1 + |ws|, index + 1, index)
    case JObject(ws, members) =>
      [Token(Object, at, at + |Print(v)|, MemberCount(members), parent)]
      + MembersTokens(members, at + 1 + |ws|, index + 1, index)
  }

  ghost function ElemsTokens(es: Elems, at: nat, index: nat, parent: nat): (r: seq<Token>)
    ensures |r| == ElemsNodeCount(es)
  {
    match es
    case NoElems => []
    case Elem(v, after, before, rest) =>
      Tokens(v, at, index, parent)
      + ElemsTokens(rest, at + |Print(v)| + |after| + 1 + |before|, index + NodeCount(v), parent)
  }

  /** Where the value of the first member stands, and where the other members do. */
  ghost function ValueAt(ms: Members, at: nat): nat
    requires ms.Member?
  {
    at + |ms.key| + 2 + |ms.beforeColon| + 1 + |ms.afterColon|
  }

  ghost function RestAt(ms: Members, at: nat): nat
    requires ms.Member?
  {
    ValueAt(ms, at) + |Print(ms.value)| + |ms.after| + 1 + |ms.before|
  }

  /** A key is a string token of size one, and the parent of its value. */
  ghost function MembersTokens(ms: Members, at: nat, index: nat, parent: nat): (r: seq<Token>)
    ensures |r| == MembersNodeCount(ms)
  {
    match ms
    case NoMembers => []
    case Member(key, w1, w2, v, after, before, rest) =>
      [Token(String, at + 1, at + 1 + |key|, 1, parent)]
      + (Tokens(v, ValueAt(ms, at), index + 1, index)
         + MembersTokens(rest, RestAt(ms, at), index + 1 + NodeCount(v), parent))
  }

  // -------------------------------------------------------- spans and substrings

  /** In the order of the tokens, the text each one stands for; a string stands for what is between its quotes. */
  ghost function NodeTexts(v: Json): (r: seq<string>)
    ensures |r| == NodeCount(v)
  {
    match v
    case JWord(text) => [text]
    case JText(body) => [body]
    case JArray(_, elems) => [Print(v)] + ElemsNodeTexts(elems)
    case JObject(_, members) => [Print(v)] + MembersNodeTexts(members)
  }

  ghost function ElemsNodeTexts(es: Elems): (r: seq<string>)
    ensures |r| == ElemsNodeCount(es)
  {
    if es.NoElems? then [] else NodeTexts(es.v) + ElemsNodeTexts(es.rest)
  }

  ghost function MembersNodeTexts(ms: Members): (r: seq<string>)
    ensures |r| == MembersNodeCount(ms)
  {
    if ms.NoMembers? then [] else [ms.key] + (NodeTexts(ms.value) + MembersNodeTexts(ms.rest))
  }

  ghost predicate Delimits(js: string, t: Token, text: string) {
    0 <= t.start <= t.end <= |js| && js[t.start..t.end] == text
  }

  ghost predicate AllDelimit(js: string, toks: seq<Token>, texts: seq<string>) {
    |toks| == |texts| && forall k :: 0 <= k < |toks| ==> Delimits(js, toks[k], texts[k])
  }

  lemma AllDelimitCons(js: string, t: Token, text: string, b: seq<Token>, tb: seq<string>)
    requires Delimits(js, t, text) && AllDelimit(js, b, tb)
    ensures AllDelimit(js, [t] + b, [text] + tb)
  {
  }

  lemma AllDelimitAppend(js: string, a: seq<Token>, ta: seq<string>, b: seq<Token>, tb: seq<string>)
    requires AllDelimit(js, a, ta) && AllDelimit(js, b, tb)
    ensures AllDelimit(js, a + b, ta + tb)
  {
  }

  lemma StandsParts(js: string, at: nat, a: string, b: string)
    requires StandsAt(js, at, a + b)
    ensures StandsAt(js, at, a) && StandsAt(js, at + |a|, b)
  {
    forall k | 0 <= k < |a| ensures js[at + k] == a[k] { assert (a + b)[k] == a[k]; }
    forall k | 0 <= k < |b| ensures js[at + |a| + k] == b[k] { assert js[at + (|a| + k)] == (a + b)[|a| + k]; }
  }

  /** A quoted string stands with its contents between the quotes. */
  lemma StandsQuoted(js: string, at: nat, body: string)
    requires StandsAt(js, at, "\"" + body + "\"")
    ensures StandsAt(js, at + 1, body)
  {
    assert "\"" + body + "\"" == "\"" + (body + "\"");
    StandsParts(js, at, "\"", body + "\"");
    StandsParts(js, at + 1, body, "\"");
  }

  lemma StandsKey(js: string, at: nat, quoted: string, w1: string, w2: string, rest: string)
    requires StandsAt(js, at, quoted + (w1 + (":" + (w2 + rest))))
    ensures StandsAt(js, at, quoted) && StandsAt(js, at + |quoted| + |w1| + 1 + |w2|, rest)
  {
    StandsParts(js, at, quoted, w1 + (":" + (w2 + rest)));
    StandsParts(js, at + |quoted|, w1, ":" + (w2 + rest));
    StandsParts(js, at + |quoted| + |w1|, ":", w2 + rest);
    StandsParts(js, at + |quoted| + |w1| + 1, w2, rest);
  }

  lemma StandsItem(js: string, at: nat, item: string, after: string, before: string, rest: string)
    requires StandsAt(js, at, item + (after + ("," + (before + rest))))
    ensures StandsAt(js, at, item) && StandsAt(js, at + |item| + |after| + 1 + |before|, rest)
  {
    StandsParts(js, at, item, after + ("," + (before + rest)));
    StandsParts(js, at + |item|, after, "," + (before + rest));
    StandsParts(js, at + |item| + |after|, ",", before + rest);
    StandsParts(js, at + |item| + |after| + 1, before, rest);
  }

  lemma StandsMember(js: string, at: nat, ms: Members)
    requires ms.Member? && StandsAt(js, at, PrintMembers(ms))
    ensures StandsAt(js, at + 1, ms.key) && StandsAt(js, ValueAt(ms, at), Print(ms.value))
    ensures ms.rest.Member? ==> StandsAt(js, RestAt(ms, at), PrintMembers(ms.rest))
  {
    var tail := if ms.rest.NoMembers? then "" else "," + (ms.before + PrintMembers(ms.rest));
    StandsKey(js, at, "\"" + ms.key + "\"", ms.beforeColon, ms.afterColon, Print(ms.value) + (ms.after + tail));
    StandsQuoted(js, at, ms.key);
    if ms.rest.Member? {
      StandsItem(js, ValueAt(ms, at), Print(ms.value), ms.after, ms.before, PrintMembers(ms.rest));
    } else {
      StandsParts(js, ValueAt(ms, at), Print(ms.value), ms.after + tail);
    }
  }

  lemma StandsElem(js: string, at: nat, es: Elems)
    requires es.Elem? && StandsAt(js, at, PrintElems(es))
    ensures StandsAt(js, at, Print(es.v))
    ensures es.rest.Elem? ==> StandsAt(js, at + |Print(es.v)| + |es.after| + 1 + |es.before|, PrintElems(es.rest))
  {
    if es.rest.Elem? {
      StandsItem(js, at, Print(es.v), es.after, es.before, PrintElems(es.rest));
    } else {
      StandsParts(js, at, Print(es.v), es.after + "");
    }
  }

  lemma StandsInside(js: string, at: nat, open: string, ws: string, inside: string, close: string)
    requires StandsAt(js, at, open + (ws + (inside + close)))
    ensures StandsAt(js, at + |open| + |ws|, inside)
  {
    StandsParts(js, at, open, ws + (inside + close));
    StandsParts(js, at + |open|, ws, inside + close);
    StandsParts(js, at + |open| + |ws|, inside, close);
  }

  lemma ContainerDelimits(js: string, at: nat, text: string, first: Token, inside: seq<Token>, texts: seq<string>,
                          all: seq<Token>, allTexts: seq<string>)
    requires StandsAt(js, at, text) && first.start == at && first.end == at + |text| && AllDelimit(js, inside, texts)
    requires all == [first] + inside && allTexts == [text] + texts
    ensures AllDelimit(js, all, allTexts)
  {
    AllDelimitCons(js, first, text, inside, texts);
  }

  /** Every token's span is the text of its node. */
  lemma {:induction false} TokensDelimitNodes(js: string, v: Json, at: nat, index: nat, parent: int)
    requires StandsAt(js, at, Print(v))
    ensures AllDelimit(js, Tokens(v, at, index, parent), NodeTexts(v))
    decreases v, 2
  {
    match v
    case JWord(text) =>
    case JText(body) => StandsQuoted(js, at, body);
    case JArray(ws, elems) =>
      ElemsStand(js, ws, elems, at);
      ElemsTokensDelimit(js, elems, at + 1 + |ws|, index + 1, index);
      ArrayDelimits(js, ws, elems, at, index, parent);
    case JObject(ws, members) =>
      MembersStand(js, ws, members, at);
      MembersTokensDelimit(js, members, at + 1 + |ws|, index + 1, index);
      ObjectDelimits(js, ws, members, at, index, parent);
  }

  lemma ArrayUnfolds(ws: string, es: Elems, at: nat, index: nat, parent: int)
    ensures var v := JArray(ws, es);
      && Tokens(v, at, index, parent) == [Token(Array, at, at + |Print(v)|, ElemCount(es), parent)]
                                         + ElemsTokens(es, at + 1 + |ws|, index + 1, index)
      && NodeTexts(v) == [Print(v)] + ElemsNodeTexts(es)
  {
  }

  lemma ElemsStand(js: string, ws: string, es: Elems, at: nat)
    requires StandsAt(js, at, Print(JArray(ws, es)))
    ensures StandsAt(js, at + 1 + |ws|, PrintElems(es))
  {
    StandsInside(js, at, "[", ws, PrintElems(es), "]");
  }

  lemma ArrayDelimits(js: string, ws: string, es: Elems, at: nat, index: nat, parent: int)
    requires StandsAt(js, at, Print(JArray(ws, es)))
    requires AllDelimit(js, ElemsTokens(es, at + 1 + |ws|, index + 1, index), ElemsNodeTexts(es))
    ensures AllDelimit(js, Tokens(JArray(ws, es), at, index, parent), NodeTexts(JArray(ws, es)))
  {
    var v := JArray(ws, es);
    ArrayUnfolds(ws, es, at, index, parent);
    ContainerDelimits(js, at, Print(v), Token(Array, at, at + |Print(v)|, ElemCount(es), parent),
                      ElemsTokens(es, at + 1 + |ws|, index + 1, index), ElemsNodeTexts(es),
                      Tokens(v, at, index, parent), NodeTexts(v));
  }

  lemma ObjectUnfolds(ws: string, ms: Members, at: nat, index: nat, parent: int)
    ensures var v := JObject(ws, ms);
      && Tokens(v, at, index, parent) == [Token(Object, at, at + |Print(v)|, MemberCount(ms), parent)]
                                         + MembersTokens(ms, at + 1 + |ws|, index + 1, index)
      && NodeTexts(v) == [Print(v)] + MembersNodeTexts(ms)
  {
  }

  lemma MembersStand(js: string, ws: string, ms: Members, at: nat)
    requires StandsAt(js, at, Print(JObject(ws, ms)))
    ensures StandsAt(js, at + 1 + |ws|, PrintMembers(ms))
  {
    StandsInside(js, at, "{", ws, PrintMembers(ms), "}");
  }

  lemma ObjectDelimits(js: string, ws: string, ms: Members, at: nat, index: nat, parent: int)
    requires StandsAt(js, at, Print(JObject(ws, ms)))
    requires AllDelimit(js, MembersTokens(ms, at + 1 + |ws|, index + 1, index), MembersNodeTexts(ms))
    ensures AllDelimit(js, Tokens(JObject(ws, ms), at, index, parent), NodeTexts(JObject(ws, ms)))
  {
    var v := JObject(ws, ms);
    ObjectUnfolds(ws, ms, at, index, parent);
    ContainerDelimits(js, at, Print(v), Token(Object, at, at + |Print(v)|, MemberCount(ms), parent),
                      MembersTokens(ms, at + 1 + |ws|, index + 1, index), MembersNodeTexts(ms),
                      Tokens(v, at, index, parent), NodeTexts(v));
  }

  lemma {:induction false} ElemsTokensDelimit(js: string, es: Elems, at: nat, index: nat, parent: nat)
    requires es.Elem? ==> StandsAt(js, at, PrintElems(es))
    ensures AllDelimit(js, ElemsTokens(es, at, index, parent), ElemsNodeTexts(es))
    decreases es, 0
  {
    if es.Elem? {
      var next := at + |Print(es.v)| + |es.after| + 1 + |es.before|;
      StandsElem(js, at, es);
      TokensDelimitNodes(js, es.v, at, index, parent);
      ElemsTokensDelimit(js, es.rest, next, index + NodeCount(es.v), parent);
      AllDelimitAppend(js, Tokens(es.v, at, index, parent), NodeTexts(es.v),
                       ElemsTokens(es.rest, next, index + NodeCount(es.v), parent), ElemsNodeTexts(es.rest));
    }
  }

  lemma {:induction false} MembersTokensDelimit(js: string, ms: Members, at: nat, index: nat, parent: nat)
    requires ms.Member? ==> StandsAt(js, at, PrintMembers(ms))
    ensures AllDelimit(js, MembersTokens(ms, at, index, parent), MembersNodeTexts(ms))
    decreases ms, 0
  {
    if ms.Member? {
      var value, next := ValueAt(ms, at), RestAt(ms, at);
      StandsMember(js, at, ms);
      TokensDelimitNodes(js, ms.value, value, index + 1, index);
      MembersTokensDelimit(js, ms.rest, next, index + 1 + NodeCount(ms.value), parent);
      var a := Tokens(ms.value, value, index + 1, index);
      var b := MembersTokens(ms.rest, next, index + 1 + NodeCount(ms.value), parent);
      AllDelimitAppend(js, a, NodeTexts(ms.value), b, MembersNodeTexts(ms.rest));
      AllDelimitCons(js, Token(String, at + 1, at + 1 + |ms.key|, 1, parent), ms.key,
                     a + b, NodeTexts(ms.value) + MembersNodeTexts(ms.rest));
    }
  }
}
