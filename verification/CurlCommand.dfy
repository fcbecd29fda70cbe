/** Parsing a curl command line into a request, and printing a stored API as one. */
module CurlCommand {
  import opened Prelude
  import opened Text
  import opened CurlTokens

  type Header = (string, string)

  datatype CurlRequest = CurlRequest(method_: string, url: string, headers: seq<Header>, body: string)

  datatype ParseError = BadTokens | EmptyCommand | NoUrl

  // ---- Parsing ----

  datatype Partial = Partial(method_: string, url: string, headers: seq<Header>, data: seq<string>)

  const BLANK := Partial("", "", [], [])

  const DATA_FLAGS := {"-d", "--data", "--data-raw", "--data-binary", "--data-ascii", "--data-urlencode", "-F", "--form"}

  /** `strings.Cut` at the first colon. */
  function ColonAt(s: string): (i: nat)
    ensures i <= |s|
    ensures i < |s| ==> s[i] == ':'
    ensures forall k :: 0 <= k < i ==> s[k] != ':'
  {
    if s == [] || s[0] == ':' then 0 else 1 + ColonAt(s[1..])
  }

  function ReadHeader(h: string): Option<Header> {
    var i := ColonAt(h);
    if i == |h| then None else Some((TrimSpace(h[..i]), TrimSpace(h[i + 1..])))
  }

  /** The argument an option takes: the next token, or nothing at the end of the line. */
  function Argument(tokens: seq<string>): string {
    if |tokens| > 1 then tokens[1] else ""
  }

  function AfterArgument(tokens: seq<string>): seq<string>
    requires tokens != []
  {
    if |tokens| > 1 then tokens[2..] else []
  }

  /** What one token, with its argument, adds to the request. `basic` encodes `-u` credentials. */
  function Take(tokens: seq<string>, p: Partial, basic: string -> string): Partial
    requires tokens != []
  {
    var t, arg := tokens[0], Argument(tokens);
    if t == "-X" || t == "--request" then p.(method_ := ToUpper(arg))
    else if "-X" <= t && |t| > 2 then p.(method_ := ToUpper(t[2..]))
    else if t == "-H" || t == "--header" then
      match ReadHeader(arg)
      case Some(h) => p.(headers := p.headers + [h])
      case None => p
    else if t in DATA_FLAGS then p.(data := p.data + [arg])
    else if t == "--url" then p.(url := arg)
    else if t == "-u" || t == "--user" then p.(headers := p.headers + [("Authorization", "Basic " + basic(arg))])
    else if t == "-G" || t == "--get" then (if p.method_ == "" then p.(method_ := "GET") else p)
    else if "-" <= t then p
    else if p.url == "" then p.(url := t)
    else p
  }

  predicate TakesArgument(t: string) {
    || t == "-X" || t == "--request"
    || (!("-X" <= t) && (t in {"-H", "--header", "--url", "-u", "--user"} || t in DATA_FLAGS))
  }

  function Scan(tokens: seq<string>, p: Partial, basic: string -> string): Partial
    decreases |tokens|
  {
    if tokens == [] then p
    else
      Scan(if TakesArgument(tokens[0]) then AfterArgument(tokens) else tokens[1..], Take(tokens, p, basic), basic)
  }

  function Finish(p: Partial): Result<CurlRequest, ParseError> {
    if p.url == "" then Failure(NoUrl)
    else
      var body := Join(p.data, "&");
      var method_ := if p.method_ != "" then p.method_ else if body != "" then "POST" else "GET";
      Success(CurlRequest(method_, p.url, p.headers, body))
  }

  function WithoutCurl(tokens: seq<string>): seq<string> {
    if tokens != [] && tokens[0] == "curl" then tokens[1..] else tokens
  }

  function Parsed(command: string, basic: string -> string): Result<CurlRequest, ParseError> {
    var t := Tokens(command);
    if t.Failure? then Failure(BadTokens)
    else if WithoutCurl(t.value) == [] then Failure(EmptyCommand)
    else Finish(Scan(WithoutCurl(t.value), BLANK, basic))
  }

  /** The switch on one token; `at` is the last token it consumed. */
  method TakeOne(tokens: seq<string>, i: nat, p: Partial, basic: string -> string) returns (q: Partial, at: nat)
    requires i < |tokens|
    ensures q == Take(tokens[i..], p, basic)
    ensures at == if TakesArgument(tokens[i]) && i + 1 < |tokens| then i + 1 else i
  {
    var t := tokens[i];
    q, at := p, i;
    // The value an option consumes, were it to consume one.
    var next, past := "", i;
    if i + 1 < |tokens| {
      next, past := tokens[i + 1], i + 1;
    }
    assert next == Argument(tokens[i..]);
    if t == "-X" || t == "--request" {
      at, q := past, p.(method_ := ToUpper(next));
    } else if "-X" <= t && |t| > 2 {
      q := p.(method_ := ToUpper(t[2..]));
    } else if t == "-H" || t == "--header" {
      at := past;
      if next != "" {
        var h := ReadHeader(next);
        if h.Some? {
          q := p.(headers := p.headers + [h.value]);
        }
      }
    } else if t in DATA_FLAGS {
      at, q := past, p.(data := p.data + [next]);
    } else if t == "--url" {
      at, q := past, p.(url := next);
    } else if t == "-u" || t == "--user" {
      at, q := past, p.(headers := p.headers + [("Authorization", "Basic " + basic(next))]);
    } else if t == "-G" || t == "--get" {
      if p.method_ == "" {
        q := p.(method_ := "GET");
      }
    } else if "-" <= t {
      // Switches without effect, known or not.
    } else if p.url == "" {
      q := p.(url := t);
    }
  }

  method ParseCurl(command: string, basic: string -> string) returns (r: Result<CurlRequest, ParseError>)
    ensures r == Parsed(command, basic)
  {
    var lexed := Tokenize(command);
    if lexed.Failure? {
      return Failure(BadTokens);
    }
    var tokens := lexed.value;
    if |tokens| > 0 && tokens[0] == "curl" {
      tokens := tokens[1..];
    }
    if |tokens| == 0 {
      return Failure(EmptyCommand);
    }
    var p := BLANK;
    var i := 0;
    while i < |tokens|
      invariant 0 <= i <= |tokens|
      invariant Scan(tokens[i..], p, basic) == Scan(tokens, BLANK, basic)
    {
      ghost var rest := tokens[i..];
      var q, at := TakeOne(tokens, i, p, basic);
      assert tokens[at + 1..] == if TakesArgument(rest[0]) then AfterArgument(rest) else rest[1..];
      p, i := q, at + 1;
    }
    assert tokens[i..] == [];
    r := Finish(p);
  }

  // ---- Exporting ----

  datatype Api = Api(method_: string, uri: string, params: seq<(string, string)>, headers: seq<Header>, body: string)

  function Pairs(params: seq<(string, string)>): seq<string> {
    if params == [] then [] else [params[0].0 + "=" + params[0].1] + Pairs(params[1..])
  }

  function FullUrl(a: Api): string {
    if a.params == [] then a.uri
    else a.uri + ((if Contains(a.uri, "?") then "&" else "?") + Join(Pairs(a.params), "&"))
  }

  function HeaderText(h: Header): string {
    h.0 + ": " + h.1
  }

  function HeaderFlags(headers: seq<Header>): string {
    if headers == [] then "" else " -H " + ShellQuote(HeaderText(headers[0])) + HeaderFlags(headers[1..])
  }

  function MethodFlag(a: Api): string {
    if a.method_ != "GET" || a.body != "" then " -X " + a.method_ else ""
  }

  function BodyFlag(a: Api): string {
    if a.body != "" then " -d " + ShellQuote(a.body) else ""
  }

  /** One exported line, without its newline. */
  function ExportedLine(a: Api): string {
    "curl" + (MethodFlag(a) + (" " + ShellQuote(FullUrl(a)) + (HeaderFlags(a.headers) + BodyFlag(a))))
  }

  predicate Exportable(a: Api) {
    a.method_ != "" && a.method_ != "UNSPECIFIED"
  }

  function Exported(apis: seq<Api>): string {
    if apis == [] then ""
    else Exported(apis[..|apis| - 1])
         + (if Exportable(apis[|apis| - 1]) then ExportedLine(apis[|apis| - 1]) + "\n" else "")
  }

  lemma {:induction false} PairsAppend(params: seq<(string, string)>, p: (string, string))
    ensures Pairs(params + [p]) == Pairs(params) + [p.0 + "=" + p.1]
  {
    if params != [] {
      assert (params + [p])[1..] == params[1..] + [p];
      PairsAppend(params[1..], p);
    }
  }

  lemma {:induction false} HeaderFlagsAppend(headers: seq<Header>, h: Header)
    ensures HeaderFlags(headers + [h]) == HeaderFlags(headers) + " -H " + ShellQuote(HeaderText(h))
  {
    if headers == [] {
      assert headers + [h] == [h] && HeaderFlags([h][1..]) == "";
    } else {
      assert (headers + [h])[1..] == headers[1..] + [h];
      HeaderFlagsAppend(headers[1..], h);
    }
  }

  method WriteUrl(a: Api) returns (url: string)
    ensures url == FullUrl(a)
  {
    url := a.uri;
    if |a.params| > 0 {
      var pairs: seq<string> := [];
      for k := 0 to |a.params|
        invariant pairs == Pairs(a.params[..k])
      {
        PairsAppend(a.params[..k], a.params[k]);
        assert a.params[..k + 1] == a.params[..k] + [a.params[k]];
        pairs := pairs + [a.params[k].0 + "=" + a.params[k].1];
      }
      assert a.params[..|a.params|] == a.params;
      var sep := "?";
      if Contains(url, "?") {
        sep := "&";
      }
      url := url + (sep + Join(pairs, "&"));
    }
  }

  method WriteHeaders(headers: seq<Header>) returns (text: string)
    ensures text == HeaderFlags(headers)
  {
    text := "";
    for k := 0 to |headers|
      invariant text == HeaderFlags(headers[..k])
    {
      HeaderFlagsAppend(headers[..k], headers[k]);
      assert headers[..k + 1] == headers[..k] + [headers[k]];
      text := text + " -H " + ShellQuote(headers[k].0 + ": " + headers[k].1);
    }
    assert headers[..|headers|] == headers;
  }

  lemma Grouped(m: string, u: string, h: string, b: string)
    ensures "curl" + (m + (u + (h + b))) == (("curl" + m) + u + h) + b
    ensures m == "" ==> "curl" + m == "curl"
    ensures b == "" ==> (("curl" + m) + u + h) + b == ("curl" + m) + u + h
  {
  }

  method WriteLine(a: Api) returns (line: string)
    ensures line == ExportedLine(a)
  {
    line := "curl";
    if a.method_ != "GET" || a.body != "" {
      line := line + (" -X " + a.method_);
    }
    var url := WriteUrl(a);
    var flags := WriteHeaders(a.headers);
    line := line + (" " + ShellQuote(url)) + flags;
    if a.body != "" {
      line := line + (" -d " + ShellQuote(a.body));
    }
    Grouped(MethodFlag(a), " " + ShellQuote(url), flags, BodyFlag(a));
  }

  method ExportCurl(apis: seq<Api>) returns (text: string)
    ensures text == Exported(apis)
  {
    text := "";
    for i := 0 to |apis|
      invariant text == Exported(apis[..i])
    {
      var a := apis[i];
      assert apis[..i + 1][..i] == apis[..i];
      if a.method_ == "" || a.method_ == "UNSPECIFIED" {
        continue;
      }
      var line := WriteLine(a);
      text := text + (line + "\n");
    }
    assert apis[..|apis|] == apis;
  }
}
