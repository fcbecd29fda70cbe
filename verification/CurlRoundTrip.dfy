/** Importing what was exported: `ParseCurl` against `ExportCurl`, for every stored API. */
module CurlRoundTrip {
  import opened Prelude
  import opened Text
  import opened CurlTokens
  import opened CurlCommand

  /** The request an exported API stands for. */
  function Meant(a: Api): CurlRequest {
    CurlRequest(a.method_, FullUrl(a), a.headers, a.body)
  }

  /** Method names are the upper-case enumeration names. */
  predicate MethodName(m: string) {
    m != [] && forall c :: c in m ==> 'A' <= c <= 'Z'
  }

  predicate HeaderSurvives(h: Header) {
    ':' !in h.0 && Trimmed(h.0) && Trimmed(h.1) && NoContinuation(h.0) && NoContinuation(h.1)
  }

  /** What a caller can check beforehand. */
  predicate Faithful(a: Api) {
    && FullUrl(a) != "" && FullUrl(a)[0] != '-' && NoContinuation(FullUrl(a))
    && NoContinuation(a.body)
    && forall h :: h in a.headers ==> HeaderSurvives(h)
  }

  // ---- The line as words ----

  function HeaderWords(headers: seq<Header>): seq<Word> {
    if headers == [] then [] else [Bare("-H"), Quoted(HeaderText(headers[0]))] + HeaderWords(headers[1..])
  }

  function BodyWords(a: Api): seq<Word> {
    if a.body != "" then [Bare("-d"), Quoted(a.body)] else []
  }

  function MethodWords(a: Api): seq<Word> {
    if a.method_ != "GET" || a.body != "" then [Bare("-X"), Bare(a.method_)] else []
  }

  function Words(a: Api): seq<Word> {
    [Bare("curl")] + (MethodWords(a) + ([Quoted(FullUrl(a))] + (HeaderWords(a.headers) + BodyWords(a))))
  }

  /** The words, each after a space. */
  function Spaced(ws: seq<Word>): string {
    if ws == [] then "" else " " + ws[0].Show() + Spaced(ws[1..])
  }

  lemma {:induction false} SpacedAppend(a: seq<Word>, b: seq<Word>)
    ensures Spaced(a + b) == Spaced(a) + Spaced(b)
  {
    if a == [] {
      assert a + b == b;
    } else {
      assert (a + b)[0] == a[0] && (a + b)[1..] == a[1..] + b;
      SpacedAppend(a[1..], b);
    }
  }

  lemma {:induction false} LineIsSpaced(ws: seq<Word>)
    requires ws != []
    ensures Line(ws) == ws[0].Show() + Spaced(ws[1..])
  {
    if |ws| > 1 {
      LineIsSpaced(ws[1..]);
      assert Spaced(ws[1..]) == " " + ws[1].Show() + Spaced(ws[1..][1..]);
    }
  }

  lemma {:induction false} HeaderWordsShown(headers: seq<Header>)
    ensures Spaced(HeaderWords(headers)) == HeaderFlags(headers)
  {
    if headers != [] {
      var two := [Bare("-H"), Quoted(HeaderText(headers[0]))];
      HeaderWordsShown(headers[1..]);
      SpacedAppend(two, HeaderWords(headers[1..]));
      SpacedTwo(two[0], two[1]);
    }
  }

  lemma SpacedOne(x: Word)
    ensures Spaced([x]) == " " + x.Show()
  {
    assert Spaced([x][1..]) == "";
  }

  lemma SpacedTwo(x: Word, y: Word)
    ensures Spaced([x, y]) == " " + x.Show() + " " + y.Show()
  {
    SpacedOne(x);
    SpacedOne(y);
    SpacedAppend([x], [y]);
    assert [x] + [y] == [x, y];
  }

  lemma WordsShowLine(a: Api)
    ensures Line(Words(a)) == ExportedLine(a)
  {
    var url := [Quoted(FullUrl(a))];
    var tail := HeaderWords(a.headers) + BodyWords(a);
    LineIsSpaced(Words(a));
    assert Words(a)[1..] == MethodWords(a) + (url + tail);
    SpacedAppend(MethodWords(a), url + tail);
    SpacedAppend(url, tail);
    SpacedAppend(HeaderWords(a.headers), BodyWords(a));
    HeaderWordsShown(a.headers);
    SpacedOne(url[0]);
    FlagsShown(a);
  }

  lemma FlagsShown(a: Api)
    ensures Spaced(MethodWords(a)) == MethodFlag(a) && Spaced(BodyWords(a)) == BodyFlag(a)
  {
    SpacedTwo(Bare("-X"), Bare(a.method_));
    SpacedTwo(Bare("-d"), Quoted(a.body));
  }

  // ---- The words as tokens ----

  function HeaderTokens(headers: seq<Header>): seq<string> {
    if headers == [] then [] else ["-H", Unfold(HeaderText(headers[0]))] + HeaderTokens(headers[1..])
  }

  function BodyTokens(a: Api): seq<string> {
    if a.body != "" then ["-d", Unfold(a.body)] else []
  }

  function UrlTokens(a: Api): seq<string> {
    if FullUrl(a) != "" then [Unfold(FullUrl(a))] else []
  }

  function MethodTokens(a: Api): seq<string> {
    if a.method_ != "GET" || a.body != "" then ["-X", a.method_] else []
  }

  lemma {:induction false} ReadBackAppend(a: seq<Word>, b: seq<Word>)
    ensures ReadBack(a + b) == ReadBack(a) + ReadBack(b)
  {
    if a == [] {
      assert a + b == b;
    } else {
      assert (a + b)[0] == a[0] && (a + b)[1..] == a[1..] + b;
      ReadBackAppend(a[1..], b);
    }
  }

  lemma ReadBackOne(w: Word)
    ensures ReadBack([w]) == if w.Read() == [] then [] else [w.Read()]
  {
    assert ReadBack([w][1..]) == [];
  }

  lemma ReadBackTwo(x: Word, y: Word)
    requires x.Read() != [] && y.Read() != []
    ensures ReadBack([x, y]) == [x.Read(), y.Read()]
  {
    ReadBackOne(x);
    ReadBackOne(y);
    ReadBackAppend([x], [y]);
    assert [x] + [y] == [x, y];
  }

  lemma {:induction false} ReadBackHeaders(headers: seq<Header>)
    ensures ReadBack(HeaderWords(headers)) == HeaderTokens(headers)
  {
    if headers != [] {
      UnfoldFixed(HeaderText(headers[0]));
      ReadBackTwo(Bare("-H"), Quoted(HeaderText(headers[0])));
      ReadBackAppend([Bare("-H"), Quoted(HeaderText(headers[0]))], HeaderWords(headers[1..]));
      ReadBackHeaders(headers[1..]);
    }
  }

  lemma WordsFine(a: Api)
    requires MethodName(a.method_)
    ensures forall w :: w in Words(a) ==> w.Fine()
  {
    HeaderWordsFine(a.headers);
    assert Bare("curl").Fine() && Bare("-X").Fine() && Bare("-d").Fine() && Bare(a.method_).Fine();
    forall w | w in Words(a)
      ensures w.Fine()
    {
      assert w in [Bare("curl")] || w in MethodWords(a) || w in [Quoted(FullUrl(a))] || w in HeaderWords(a.headers)
             || w in BodyWords(a);
    }
  }

  lemma {:induction false} HeaderWordsFine(headers: seq<Header>)
    ensures forall w :: w in HeaderWords(headers) ==> w.Fine()
  {
    if headers != [] {
      HeaderWordsFine(headers[1..]);
    }
  }

  /** The tokenizer's view of an exported line. */
  lemma LineTokens(a: Api)
    requires MethodName(a.method_)
    ensures Tokens(ExportedLine(a)) ==
            Success(["curl"] + (MethodTokens(a) + (UrlTokens(a) + (HeaderTokens(a.headers) + BodyTokens(a)))))
  {
    var tail := HeaderWords(a.headers) + BodyWords(a);
    var url := [Quoted(FullUrl(a))];
    WordsShowLine(a);
    WordsFine(a);
    PrintedLineReadsBack(Words(a));
    ReadBackAppend([Bare("curl")], MethodWords(a) + (url + tail));
    ReadBackAppend(MethodWords(a), url + tail);
    ReadBackAppend(url, tail);
    ReadBackAppend(HeaderWords(a.headers), BodyWords(a));
    ReadBackHeaders(a.headers);
    UnfoldFixed(FullUrl(a));
    UnfoldFixed(a.body);
    ReadBackOne(Bare("curl"));
    ReadBackOne(url[0]);
    if MethodWords(a) != [] {
      ReadBackTwo(Bare("-X"), Bare(a.method_));
    }
    if a.body != "" {
      ReadBackTwo(Bare("-d"), Quoted(a.body));
    }
  }

  // ---- The parser on those tokens ----

  lemma ScanPair(flag: string, arg: string, rest: seq<string>, p: Partial, basic: string -> string)
    requires TakesArgument(flag)
    ensures Scan([flag, arg] + rest, p, basic) == Scan(rest, Take([flag, arg], p, basic), basic)
  {
    var tokens := [flag, arg] + rest;
    assert tokens[2..] == rest && tokens[0] == flag && tokens[1] == arg;
    assert Take(tokens, p, basic) == Take([flag, arg], p, basic);
  }

  lemma ScanMethod(a: Api, rest: seq<string>, basic: string -> string)
    requires MethodName(a.method_)
    ensures Scan(MethodTokens(a) + rest, BLANK, basic) ==
            Scan(rest, BLANK.(method_ := if MethodTokens(a) == [] then "" else a.method_), basic)
  {
    if MethodTokens(a) == [] {
      assert MethodTokens(a) + rest == rest;
    } else {
      assert forall i :: 0 <= i < |a.method_| ==> a.method_[i] in a.method_;
      assert ToUpper(a.method_) == a.method_;
      ScanPair("-X", a.method_, rest, BLANK, basic);
    }
  }

  lemma ScanUrl(u: string, rest: seq<string>, p: Partial, basic: string -> string)
    requires u != "" && u[0] != '-' && p.url == ""
    ensures Scan([u] + rest, p, basic) == Scan(rest, p.(url := u), basic)
  {
    assert ([u] + rest)[1..] == rest;
    NoDash(u);
  }

  /** Every option starts with a dash. */
  lemma NoDash(u: string)
    requires u == "" || u[0] != '-'
    ensures !TakesArgument(u) && !("-" <= u) && !("-X" <= u) && u !in DATA_FLAGS
    ensures u !in {"-X", "--request", "-H", "--header", "--url", "-u", "--user", "-G", "--get"}
  {
  }

  function HeaderOf(arg: string): seq<Header> {
    match ReadHeader(arg)
    case Some(h) => [h]
    case None => []
  }

  /** The headers an importer of the line sees. */
  function Imported(headers: seq<Header>): seq<Header> {
    if headers == [] then []
    else HeaderOf(Unfold(HeaderText(headers[0]))) + Imported(headers[1..])
  }

  lemma ScanHeader(arg: string, rest: seq<string>, p: Partial, basic: string -> string)
    ensures Scan(["-H", arg] + rest, p, basic) == Scan(rest, p.(headers := p.headers + HeaderOf(arg)), basic)
  {
    ScanPair("-H", arg, rest, p, basic);
    assert p.headers + [] == p.headers;
  }

  lemma {:induction false} ScanHeaders(headers: seq<Header>, rest: seq<string>, p: Partial, basic: string -> string)
    ensures Scan(HeaderTokens(headers) + rest, p, basic) ==
            Scan(rest, p.(headers := p.headers + Imported(headers)), basic)
    decreases |headers|
  {
    if headers == [] {
      assert HeaderTokens(headers) + rest == rest && p.headers + Imported(headers) == p.headers;
    } else {
      var arg := Unfold(HeaderText(headers[0]));
      var tokens, tail := HeaderTokens(headers) + rest, HeaderTokens(headers[1..]) + rest;
      Regroup(["-H", arg], HeaderTokens(headers[1..]), rest, HeaderTokens(headers));
      ScanHeader(arg, tail, p, basic);
      var q := p.(headers := p.headers + HeaderOf(arg));
      ScanHeaders(headers[1..], rest, q, basic);
      Regroup(p.headers, HeaderOf(arg), Imported(headers[1..]), q.headers);
    }
  }

  lemma ScanBody(a: Api, p: Partial, basic: string -> string)
    ensures Scan(BodyTokens(a), p, basic) == if a.body != "" then p.(data := p.data + [Unfold(a.body)]) else p
  {
    if a.body != "" {
      assert BodyTokens(a) + [] == BodyTokens(a);
      ScanPair("-d", Unfold(a.body), [], p, basic);
    }
  }

  lemma UnfoldHead(s: string)
    requires s != ""
    ensures Unfold(s) != "" && (Unfold(s)[0] == '-' <==> s[0] == '-')
  {
    UnfoldFixed(s);
    if s[0] == '-' {
      assert s == ['-'] + s[1..];
      UnfoldChar('-', s[1..]);
    }
  }

  /** The options of an exported line, taken one after the other. */
  lemma ScannedLine(a: Api, basic: string -> string)
    requires MethodName(a.method_) && FullUrl(a) != "" && FullUrl(a)[0] != '-'
    ensures var args := MethodTokens(a) + (UrlTokens(a) + (HeaderTokens(a.headers) + BodyTokens(a)));
            var p := BLANK.(method_ := if MethodTokens(a) == [] then "" else a.method_,
                            url := Unfold(FullUrl(a)), headers := Imported(a.headers));
            args != [] &&
            Scan(args, BLANK, basic) == if a.body != "" then p.(data := p.data + [Unfold(a.body)]) else p
  {
    hide Scan, Unfold, Imported, HeaderTokens, FullUrl, MethodTokens;
    UnfoldHead(FullUrl(a));
    var tail := HeaderTokens(a.headers) + BodyTokens(a);
    var p0 := BLANK.(method_ := if MethodTokens(a) == [] then "" else a.method_);
    assert UrlTokens(a) == [Unfold(FullUrl(a))];
    ScanMethod(a, UrlTokens(a) + tail, basic);
    ScanUrl(Unfold(FullUrl(a)), tail, p0, basic);
    var p1 := p0.(url := Unfold(FullUrl(a)));
    ScanHeaders(a.headers, BodyTokens(a), p1, basic);
    assert [] + Imported(a.headers) == Imported(a.headers);
    ScanBody(a, p1.(headers := Imported(a.headers)), basic);
  }

  /** What importing an exported line yields, whatever the stored texts contain. */
  lemma ImportedLine(a: Api, basic: string -> string)
    requires MethodName(a.method_) && FullUrl(a) != "" && FullUrl(a)[0] != '-'
    ensures Parsed(ExportedLine(a), basic) ==
            Success(CurlRequest(a.method_, Unfold(FullUrl(a)), Imported(a.headers), Unfold(a.body)))
  {
    LineTokens(a);
    ScannedLine(a, basic);
    UnfoldHead(FullUrl(a));
    UnfoldFixed(a.body);
    var args := MethodTokens(a) + (UrlTokens(a) + (HeaderTokens(a.headers) + BodyTokens(a)));
    assert (["curl"] + args)[1..] == args;
    hide Scan, Unfold, Imported, HeaderTokens, FullUrl, HeaderFlags;
  }

  // ---- When a header survives ----

  lemma ReplaceHeader(k: string, v: string, pat: string)
    requires pat != [] && ':' !in pat && ' ' !in pat
    ensures ReplaceAll(k + (": " + v), pat, " ") == ReplaceAll(k, pat, " ") + (": " + ReplaceAll(v, pat, " "))
  {
    hide ReplaceAll;
    var value := [' '] + v;
    assert ": " + v == [':'] + value;
    ReplaceSplit(k, [':'] + value, pat, " ");
    ReplaceSkipForeign(':', value, pat, " ");
    ReplaceSkipForeign(' ', v, pat, " ");
    assert [':'] + ([' '] + ReplaceAll(v, pat, " ")) == ": " + ReplaceAll(v, pat, " ");
  }

  lemma UnfoldHeader(h: Header)
    ensures Unfold(HeaderText(h)) == Unfold(h.0) + (": " + Unfold(h.1))
  {
    assert HeaderText(h) == h.0 + (": " + h.1);
    ReplaceHeader(h.0, h.1, CRLF_CONTINUATION);
    ReplaceHeader(ReplaceAll(h.0, CRLF_CONTINUATION, " "), ReplaceAll(h.1, CRLF_CONTINUATION, " "), LF_CONTINUATION);
  }

  lemma UnfoldKeepsColon(s: string)
    ensures ':' in Unfold(s) <==> ':' in s
  {
    ReplaceKeeps(s, CRLF_CONTINUATION, " ", ':');
    ReplaceKeeps(ReplaceAll(s, CRLF_CONTINUATION, " "), LF_CONTINUATION, " ", ':');
  }

  lemma {:induction false} ColonAfter(k: string, rest: string)
    requires ':' !in k
    ensures ColonAt(k + ":" + rest) == |k|
  {
    if k == [] {
      assert (k + ":" + rest)[0] == ':';
    } else {
      var s := k + ":" + rest;
      assert s[0] == k[0] && k[0] in k && s[1..] == k[1..] + ":" + rest;
      ColonAfter(k[1..], rest);
    }
  }

  /** A header line whose name has no colon is split after the name. */
  lemma SplitAtName(k: string, v: string)
    requires ':' !in k
    ensures ReadHeader(k + (": " + v)) == Some((TrimSpace(k), TrimSpace(v)))
  {
    hide TrimSpace;
    var text := k + (": " + v);
    assert text == k + ":" + (" " + v);
    ColonAfter(k, " " + v);
    assert text[..|k|] == k && text[|k| + 1..] == " " + v;
    TrimDropsLeadingSpace(v);
  }

  /** Any other is split inside the name: what is read as the name has no colon. */
  lemma SplitInName(k: string, v: string)
    ensures var r := ReadHeader(k + (": " + v)); r.Some? && ':' !in r.value.0
  {
    hide TrimSpace;
    var text := k + (": " + v);
    assert text[|k|] == ':';
    TrimIsTrimmed(text[..ColonAt(text)]);
  }

  lemma HeaderExact(h: Header)
    ensures ReadHeader(Unfold(HeaderText(h))).Some?
    ensures ReadHeader(Unfold(HeaderText(h))) == Some(h) <==> HeaderSurvives(h)
  {
    hide Unfold, ReadHeader, TrimSpace, Trimmed;
    UnfoldHeader(h);
    UnfoldKeepsColon(h.0);
    UnfoldFixed(h.0);
    UnfoldFixed(h.1);
    SplitInName(Unfold(h.0), Unfold(h.1));
    if ':' !in h.0 {
      SplitAtName(Unfold(h.0), Unfold(h.1));
      TrimIsTrimmed(Unfold(h.0));
      TrimIsTrimmed(Unfold(h.1));
    }
  }

  lemma {:induction false} HeadersExact(headers: seq<Header>)
    ensures |Imported(headers)| == |headers|
    ensures Imported(headers) == headers <==> forall h :: h in headers ==> HeaderSurvives(h)
  {
    if headers != [] {
      HeaderExact(headers[0]);
      HeadersExact(headers[1..]);
      assert headers == [headers[0]] + headers[1..];
      assert Imported(headers)[1..] == Imported(headers[1..]);
    }
  }

  // ---- A URL that looks like an option is never read back ----

  /** A parsed URL that starts with a dash was the argument of `--url`, unless it was there already. */
  lemma {:induction false} UrlOrigin(tokens: seq<string>, p: Partial, basic: string -> string)
    ensures var u := Scan(tokens, p, basic).url;
            u != "" && u[0] == '-' && u != p.url ==>
              exists i :: 0 <= i < |tokens| - 1 && tokens[i] == "--url" && tokens[i + 1] == u
    decreases |tokens|
  {
    if tokens != [] {
      var q := Take(tokens, p, basic);
      var rest := if TakesArgument(tokens[0]) then AfterArgument(tokens) else tokens[1..];
      var skipped := |tokens| - |rest|;
      var u := Scan(tokens, p, basic).url;
      UrlOrigin(rest, q, basic);
      if u != "" && u[0] == '-' && u != p.url {
        if u == q.url {
          assert tokens[0] == "--url" && |tokens| > 1 && tokens[0 + 1] == u;
        } else {
          var i :| 0 <= i < |rest| - 1 && rest[i] == "--url" && rest[i + 1] == u;
          assert tokens[i + skipped] == "--url" && tokens[i + skipped + 1] == u;
        }
      }
    }
  }

  lemma {:induction false} HeaderTokensKinds(headers: seq<Header>, i: nat)
    requires i < |HeaderTokens(headers)|
    ensures HeaderTokens(headers)[i] == "-H" || ':' in HeaderTokens(headers)[i]
    ensures |HeaderTokens(headers)| > 0 ==> HeaderTokens(headers)[0] == "-H"
  {
    HeaderExact(headers[0]);
    if i >= 2 {
      HeaderTokensKinds(headers[1..], i - 2);
    }
  }

  function Arguments(a: Api): seq<string> {
    MethodTokens(a) + (UrlTokens(a) + (HeaderTokens(a.headers) + BodyTokens(a)))
  }

  /** Nothing but the URL itself can be the token `--url` with a token after it. */
  lemma OnlyTheUrl(a: Api, i: nat)
    requires MethodName(a.method_) && FullUrl(a) != ""
    requires i < |Arguments(a)| - 1 && i != |MethodTokens(a)|
    ensures Arguments(a)[i] != "--url"
  {
    var m, h := |MethodTokens(a)|, |HeaderTokens(a.headers)|;
    var t := Arguments(a);
    assert |UrlTokens(a)| == 1 && "--url"[0] == '-' && |"--url"| == 5;
    if i < m {
      assert t[i] == MethodTokens(a)[i];
      assert a.method_[0] in a.method_;
    } else if i < m + 1 + h {
      assert t[i] == HeaderTokens(a.headers)[i - m - 1];
      HeaderTokensKinds(a.headers, i - m - 1);
      assert ':' !in "--url";
    } else {
      assert t[i] == BodyTokens(a)[i - m - 1 - h] && i - m - 1 - h == 0;
    }
  }

  lemma AfterTheUrl(a: Api)
    requires FullUrl(a) != "" && |MethodTokens(a)| < |Arguments(a)| - 1
    ensures Arguments(a)[|MethodTokens(a)|] == Unfold(FullUrl(a))
    ensures Arguments(a)[|MethodTokens(a)| + 1] in {"-H", "-d"}
  {
    var m := |MethodTokens(a)|;
    assert |UrlTokens(a)| == 1;
    if |HeaderTokens(a.headers)| > 0 {
      HeaderTokensKinds(a.headers, 0);
      assert Arguments(a)[m + 1] == HeaderTokens(a.headers)[0];
    } else {
      assert Arguments(a)[m + 1] == BodyTokens(a)[0];
    }
  }

  /** A text that unfolds to `--url` is `--url`: unfolding a continuation leaves a space. */
  lemma UnfoldedUrlFlag(u: string)
    requires Unfold(u) == "--url"
    ensures u == "--url"
  {
    var once := ReplaceAll(u, CRLF_CONTINUATION, " ");
    ReplacementShows(once, LF_CONTINUATION);
    ReplacementShows(u, CRLF_CONTINUATION);
  }

  lemma {:induction false} ReplacementShows(s: string, pat: string)
    requires pat != []
    ensures ' ' in ReplaceAll(s, pat, " ") || ReplaceAll(s, pat, " ") == s
  {
    if |s| >= |pat| {
      if pat <= s {
        assert ReplaceAll(s, pat, " ")[0] == ' ';
      } else {
        assert ReplaceAll(s, pat, " ") == [s[0]] + ReplaceAll(s[1..], pat, " ");
        ReplacementShows(s[1..], pat);
      }
    }
  }

  lemma DashUrlLost(a: Api, basic: string -> string)
    requires MethodName(a.method_) && FullUrl(a) != "" && FullUrl(a)[0] == '-'
    ensures Parsed(ExportedLine(a), basic) != Success(Meant(a))
  {
    LineTokens(a);
    var args := Arguments(a);
    assert (["curl"] + args)[1..] == args;
    DashUrlNotScanned(a, basic);
    hide Scan, Arguments, FullUrl, Unfold;
  }

  lemma NotAUrlArgument(a: Api, i: nat)
    requires MethodName(a.method_) && FullUrl(a) != "" && FullUrl(a)[0] == '-' && i < |Arguments(a)| - 1
    ensures !(Arguments(a)[i] == "--url" && Arguments(a)[i + 1] == FullUrl(a))
  {
    if i == |MethodTokens(a)| {
      AfterTheUrl(a);
      hide Arguments, FullUrl, Unfold, MethodTokens;
      if Unfold(FullUrl(a)) == "--url" {
        UnfoldedUrlFlag(FullUrl(a));
      }
    } else {
      OnlyTheUrl(a, i);
    }
  }

  lemma DashUrlNotScanned(a: Api, basic: string -> string)
    requires MethodName(a.method_) && FullUrl(a) != "" && FullUrl(a)[0] == '-'
    ensures Arguments(a) != [] && Scan(Arguments(a), BLANK, basic).url != FullUrl(a)
  {
    var args := Arguments(a);
    assert |UrlTokens(a)| == 1 && |args| > 0;
    forall i | 0 <= i < |args| - 1 ensures !(args[i] == "--url" && args[i + 1] == FullUrl(a)) {
      NotAUrlArgument(a, i);
    }
    hide Scan, Arguments, FullUrl;
    UrlOrigin(args, BLANK, basic);
  }

  lemma EmptyUrlLost(a: Api, basic: string -> string)
    requires FullUrl(a) == ""
    ensures Parsed(ExportedLine(a), basic) != Success(Meant(a))
  {
  }

  /**
   * Importing an exported API gives back its method, URL with parameters, headers in order and
   * body - exactly when the stored texts are ones the line format can carry.
   */
  lemma ExportThenImport(a: Api, basic: string -> string)
    requires MethodName(a.method_)
    ensures Parsed(ExportedLine(a), basic) == Success(Meant(a)) <==> Faithful(a)
  {
    if FullUrl(a) == "" {
      EmptyUrlLost(a, basic);
    } else if FullUrl(a)[0] == '-' {
      DashUrlLost(a, basic);
    } else {
      ImportedLine(a, basic);
      HeadersExact(a.headers);
      UnfoldFixed(FullUrl(a));
      UnfoldFixed(a.body);
    }
  }
}
