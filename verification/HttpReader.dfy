/**
 * Reading a request by the book (RFC 7230, section 3): a request line, header
 * lines up to the empty one, and the body. What the client builds is read back
 * as what the application asked for.
 */
module HttpReader {
  import opened Memory
  import opened HttpText
  import opened HttpHeaders
  import opened HttpRequest

  // ------------------------------------------------------------------ the reader

  /** What stands before the first `c`, and what stands after it; all and nothing if there is none. */
  function Before(s: string, c: char): string {
    if s == "" || s[0] == c then "" else [s[0]] + Before(s[1..], c)
  }

  function After(s: string, c: char): string {
    if s == "" then "" else if s[0] == c then s[1..] else After(s[1..], c)
  }

  /** The first line, without its line break, and what follows that. */
  function FirstLine(s: string): string {
    if |s| < 2 then s else if s[..2] == "\r\n" then "" else [s[0]] + FirstLine(s[1..])
  }

  function OtherLines(s: string): string {
    if |s| < 2 then "" else if s[..2] == "\r\n" then s[2..] else OtherLines(s[1..])
  }

  lemma {:induction false} OtherLinesAreLess(s: string)
    requires s != ""
    ensures |OtherLines(s)| < |s|
    decreases |s|
  {
    if |s| >= 2 && s[..2] != "\r\n" { OtherLinesAreLess(s[1..]); }
  }

  datatype Head = Head(headers: seq<Header>, body: string)

  /** Header lines up to the empty line. */
  function ReadHead(s: string): Head
    decreases |s|
  {
    if s == "" then Head([], "")
    else if FirstLine(s) == "" then Head([], OtherLines(s))
    else
      OtherLinesAreLess(s);
      var h := ReadHead(OtherLines(s));
      h.(headers := [Header(Before(FirstLine(s), ':'), After(FirstLine(s), ':'))] + h.headers)
  }

  datatype Message = Message(verb: string, scheme: string, host: string, path: string, version: string,
                             headers: seq<Header>, body: string)

  /** `verb scheme://host/path version` */
  function ReadRequest(s: string): Message {
    var line, head := FirstLine(s), ReadHead(OtherLines(s));
    var target, version := Before(After(line, ' '), ' '), After(After(line, ' '), ' ');
    var scheme, address := Before(target, ':'), After(After(After(target, ':'), '/'), '/');
    Message(Before(line, ' '), scheme, Before(address, '/'), After(address, '/'), version, head.headers, head.body)
  }

  /** The value of the first header of that name. */
  function Find(headers: seq<Header>, name: string): Option<string> {
    if headers == [] then None
    else if headers[0].key == name then Some(headers[0].value)
    else Find(headers[1..], name)
  }

  // ------------------------------------------------------------- what it reads

  lemma {:induction false} SplitsAt(a: string, c: char, b: string)
    requires c !in a
    ensures Before(a + [c] + b, c) == a && After(a + [c] + b, c) == b
    decreases |a|
  {
    var s := a + [c] + b;
    if a == "" {
      assert s == [c] + b && s[1..] == b;
    } else {
      assert s[1..] == a[1..] + [c] + b;
      SplitsAt(a[1..], c, b);
      assert a == [a[0]] + a[1..];
    }
  }

  lemma {:induction false} LineIsRead(l: string, rest: string)
    requires IsClean(l)
    ensures FirstLine(l + (CRLF + rest)) == l && OtherLines(l + (CRLF + rest)) == rest
    decreases |l|
  {
    var s := l + (CRLF + rest);
    if l == "" {
      assert s[..2] == "\r\n" && s[2..] == rest;
    } else {
      assert s[..2][0] == l[0] && s[1..] == l[1..] + (CRLF + rest);
      LineIsRead(l[1..], rest);
      assert l == [l[0]] + l[1..];
    }
  }

  /** Headers on lines of their own, with names that have no colon. */
  ghost predicate AreHeaders(hs: seq<Header>) {
    forall i {:trigger hs[i]} :: 0 <= i < |hs| ==> IsClean(LineOf(hs[i])) && ':' !in hs[i].key
  }

  lemma {:induction false} HeadersAreRead(hs: seq<Header>, body: string)
    requires AreHeaders(hs)
    ensures ReadHead(Fields(hs) + (CRLF + body)) == Head(hs, body)
    decreases |hs|
  {
    var s := Fields(hs) + (CRLF + body);
    if hs == [] {
      LineIsRead("", body);
      assert s == "" + (CRLF + body);
    } else {
      var h, rest := hs[0], Fields(hs[1..]) + (CRLF + body);
      assert s == LineOf(h) + (CRLF + rest);
      LineIsRead(LineOf(h), rest);
      assert LineOf(h) == h.key + [':'] + h.value;
      SplitsAt(h.key, ':', h.value);
      HeadersAreRead(hs[1..], body);
      assert [h] + hs[1..] == hs;
    }
  }

  /** The parts of a request line are told apart by their delimiters. */
  ghost predicate IsTarget(verb: string, host: string, path: string) {
    && ' ' !in verb && ' ' !in host && '/' !in host && ' ' !in path
    && IsClean(verb) && IsClean(host) && IsClean(path)
  }

  lemma TargetIsRead(host: string, path: string)
    requires ' ' !in host && '/' !in host
    ensures var t := "https://" + host + "/" + path; var address := After(After(After(t, ':'), '/'), '/');
      Before(t, ':') == "https" && Before(address, '/') == host && After(address, '/') == path
  {
    var t, address := "https://" + host + "/" + path, host + ['/'] + path;
    assert t == "https" + [':'] + ("//" + address);
    SplitsAt("https", ':', "//" + address);
    assert "//" + address == "" + ['/'] + ("/" + address) && "/" + address == "" + ['/'] + address;
    SplitsAt("", '/', "/" + address);
    SplitsAt("", '/', address);
    SplitsAt(host, '/', path);
  }

  lemma LineIsClean(verb: string, host: string, path: string)
    requires IsClean(verb) && IsClean(host) && IsClean(path)
    ensures IsClean(StartLine(verb, host, path))
  {
    assert IsClean(" https://") && IsClean("/") && IsClean(" HTTP/1.0");
    CleanTogether(verb, " https://");
    CleanTogether(verb + " https://", host);
    CleanTogether(verb + " https://" + host, "/");
    CleanTogether(verb + " https://" + host + "/", path);
    CleanTogether(verb + " https://" + host + "/" + path, " HTTP/1.0");
  }

  lemma CleanTogether(a: string, b: string)
    requires IsClean(a) && IsClean(b)
    ensures IsClean(a + b)
  {
  }

  lemma LineIsSplit(verb: string, host: string, path: string)
    requires IsTarget(verb, host, path)
    ensures var l := StartLine(verb, host, path); var t := "https://" + host + "/" + path;
      && IsClean(l) && Before(l, ' ') == verb
      && Before(After(l, ' '), ' ') == t && After(After(l, ' '), ' ') == "HTTP/1.0"
  {
    var l, t := StartLine(verb, host, path), "https://" + host + "/" + path;
    assert l == verb + [' '] + (t + [' '] + "HTTP/1.0");
    SplitsAt(verb, ' ', t + [' '] + "HTTP/1.0");
    SplitsAt(t, ' ', "HTTP/1.0");
    LineIsClean(verb, host, path);
  }

  /** Any request line, headers and data are read back as they are. */
  lemma RequestIsRead(verb: string, host: string, path: string, hs: seq<Header>, data: string)
    requires IsTarget(verb, host, path) && AreHeaders(hs)
    ensures ReadRequest(Wire(Request(StartLine(verb, host, path) + CRLF, hs, CRLF + data)))
            == Message(verb, "https", host, path, "HTTP/1.0", hs, data)
  {
    var l := StartLine(verb, host, path);
    LineIsSplit(verb, host, path);
    TargetIsRead(host, path);
    var rest := Fields(hs) + (CRLF + data);
    assert Wire(Request(l + CRLF, hs, CRLF + data)) == l + (CRLF + rest);
    LineIsRead(l, rest);
    HeadersAreRead(hs, data);
  }

  // ------------------------------------------------------------- a whole call

  lemma {:induction false} FindsOwn(hs: seq<Header>, more: seq<Header>, name: string)
    requires Find(hs, name).Some?
    ensures Find(hs + more, name) == Find(hs, name)
    decreases |hs|
  {
    if hs[0].key != name {
      assert (hs + more)[1..] == hs[1..] + more;
      FindsOwn(hs[1..], more, name);
    }
  }

  lemma HeadersOfFirst(a: Append, rest: seq<Append>)
    ensures HeadersOf([a] + rest) == (if a.AddHeader? then [a.header] else []) + HeadersOf(rest)
  {
    assert ([a] + rest)[1..] == rest;
  }

  /** A header that comes first is found first. */
  lemma FindFirst(h: Header, rest: seq<Append>, name: string)
    ensures Find(HeadersOf([AddHeader(h)] + rest), name)
            == if h.key == name then Some(h.value) else Find(HeadersOf(rest), name)
  {
    HeadersOfFirst(AddHeader(h), rest);
    assert ([h] + HeadersOf(rest))[1..] == HeadersOf(rest);
  }

  /** What the default headers say of a name. */
  function Default(app: App, name: string): Option<string> {
    if name == "host" then Some(app.host)
    else if name == "x-kii-appid" then Some(app.id)
    else if name == "x-kii-appkey" then Some(app.key)
    else if name == "x-kii-sdk" then Some(app.sdk)
    else None
  }

  lemma FindDefault(app: App, rest: seq<Append>, name: string)
    ensures Find(HeadersOf(DefaultHeaders(app) + rest), name)
            == if Default(app, name).Some? then Default(app, name) else Find(HeadersOf(rest), name)
  {
    var a, b, c, d := DefaultHeaders(app)[0], DefaultHeaders(app)[1], DefaultHeaders(app)[2], DefaultHeaders(app)[3];
    assert DefaultHeaders(app) + rest == [a] + ([b] + ([c] + ([d] + rest)));
    FindFirst(a.header, [b] + ([c] + ([d] + rest)), name);
    FindFirst(b.header, [c] + ([d] + rest), name);
    FindFirst(c.header, [d] + rest, name);
    FindFirst(d.header, rest, name);
  }

  /** What is found behind them: the type of the content and the token, if the call has them. */
  lemma FindLast(app: App, call: Call, name: string)
    requires call.authorized ==> TokenFits(app.token)
    ensures Find(HeadersOf(ContentType(call) + LastCalls(app, call)), name)
            == if name == "content-type" then call.contentType
               else if name == "authorization" && call.authorized then Some("bearer " + app.token)
               else None
  {
    assert "content-type"[0] != "authorization"[0];
    var empty := [AddBody(CRLF)];
    HeadersOfFirst(empty[0], []);
    assert empty + [] == empty && HeadersOf(empty) == [] && [] + empty == empty;
    assert "bearer" + " " + app.token == "bearer " + app.token;
    if call.authorized { FindFirst(Header("authorization", "bearer " + app.token), empty, name); }
    var last := LastCalls(app, call);
    var bearer := AddHeader(Header("authorization", "bearer " + app.token));
    assert last == if call.authorized then [bearer] + empty else empty;
    assert [] + last == last;
    if call.contentType.Some? { FindFirst(Header("content-type", call.contentType.value), last, name); }
  }

  /** What a started call says of the application and of itself, by name. */
  lemma StartedHeaders(app: App, call: Call)
    requires call.authorized ==> TokenFits(app.token)
    ensures var hs := Started(app, call).headers;
      && Find(hs, "host") == Some(app.host) && Find(hs, "x-kii-appid") == Some(app.id)
      && Find(hs, "x-kii-appkey") == Some(app.key) && Find(hs, "x-kii-sdk") == Some(app.sdk)
      && Find(hs, "content-type") == call.contentType
      && Find(hs, "authorization") == if call.authorized then Some("bearer " + app.token) else None
  {
    var rest := ContentType(call) + LastCalls(app, call);
    FindDefault(app, rest, "host");
    FindDefault(app, rest, "x-kii-appid");
    FindDefault(app, rest, "x-kii-appkey");
    FindDefault(app, rest, "x-kii-sdk");
    NamesDiffer();
    FindDefault(app, rest, "content-type");
    FindDefault(app, rest, "authorization");
    FindLast(app, call, "content-type");
    FindLast(app, call, "authorization");
  }

  lemma NamesDiffer()
    ensures "content-type" !in {"host", "x-kii-appid", "x-kii-appkey", "x-kii-sdk", "authorization"}
    ensures "authorization" !in {"host", "x-kii-appid", "x-kii-appkey", "x-kii-sdk"}
  {
    assert "content-type"[0] != "x-kii-appkey"[0] && "content-type"[0] != "authorization"[0];
  }

  /** Tokens of one up to 120 characters are sent; without one, or with a longer one, no authorized call starts. */
  lemma AuthorizedExactly(app: App, call: Call, capacity: nat)
    ensures call.authorized && !(1 <= |app.token| <= 120) ==> !Starts(app, call, capacity)
    ensures TokenFits(app.token) <==> 1 <= |app.token| <= 120
  {
  }

  /** What a started call has, it has whatever is appended: own headers come later, data goes to the body. */
  lemma {:induction false} AppendsFollow(r: Request, calls: seq<Append>, capacity: nat)
    ensures var r' := AppendAll(r, calls, capacity);
      r'.line == r.line && r.headers <= r'.headers && r.body <= r'.body
    decreases |calls|
  {
    if calls != [] {
      AppendsFollow(if Accepts(r, calls[0], capacity) then Added(r, calls[0]) else r, calls[1..], capacity);
    }
  }

  lemma FindsStarted(hs: seq<Header>, all: seq<Header>, name: string)
    requires hs <= all
    ensures Find(hs, name).Some? ==> Find(all, name) == Find(hs, name)
  {
    assert all == hs + all[|hs|..];
    if Find(hs, name).Some? { FindsOwn(hs, all[|hs|..], name); }
  }

  /**
   * The server reads from the wire of a finished call what the application asked for: verb, host and path, the
   * application's headers by name, then its own headers and the length in order, and the data.
   */
  lemma CallIsRead(app: App, call: Call, calls: seq<Append>, capacity: nat, n: nat)
    requires call.authorized ==> TokenFits(app.token)
    requires var r := Finished(AppendAll(Started(app, call), calls, capacity), n);
      IsTarget(call.verb, LineHost(app), call.path) && AreHeaders(r.headers)
    ensures var built := AppendAll(Started(app, call), calls, capacity); var m := ReadRequest(Wire(Finished(built, n)));
      && m.verb == call.verb && m.scheme == "https" && m.path == call.path && m.version == "HTTP/1.0"
      && m.host == (if app.normalizer.Some? then app.normalizer.value else app.host)
      && CRLF + m.body == built.body
      && m.headers == built.headers + (if n == 0 then [] else [Header("content-length", Decimal(n))])
      && Find(m.headers, "host") == Some(app.host) && Find(m.headers, "x-kii-appid") == Some(app.id)
      && Find(m.headers, "x-kii-appkey") == Some(app.key) && Find(m.headers, "x-kii-sdk") == Some(app.sdk)
      && (call.contentType.Some? ==> Find(m.headers, "content-type") == call.contentType)
      && (call.authorized ==> Find(m.headers, "authorization") == Some("bearer " + app.token))
  {
    var r0 := Started(app, call);
    var r := Finished(AppendAll(r0, calls, capacity), n);
    AppendsFollow(r0, calls, capacity);
    var data := r.body[2..];
    assert r.body == CRLF + data;
    RequestIsRead(call.verb, LineHost(app), call.path, r.headers, data);
    StartedHeaders(app, call);
    FindsStarted(r0.headers, r.headers, "host");
    FindsStarted(r0.headers, r.headers, "x-kii-appid");
    FindsStarted(r0.headers, r.headers, "x-kii-appkey");
    FindsStarted(r0.headers, r.headers, "x-kii-sdk");
    FindsStarted(r0.headers, r.headers, "content-type");
    FindsStarted(r0.headers, r.headers, "authorization");
  }
}
