/** Reading the query parameters of an exported URL back, and what importing an exported interface recovers. */
module CurlParams {
  import opened Prelude
  import opened Text
  import opened CurlTokens
  import opened CurlCommand
  import opened CurlRoundTrip

  // ---- A reader of URLs ----

  /** The pieces between the separators; there is always one. */
  function SplitAt(s: string, sep: char): (pieces: seq<string>)
    ensures pieces != []
  {
    if s == [] then [""]
    else
      var rest := SplitAt(s[1..], sep);
      if s[0] == sep then [""] + rest else [[s[0]] + rest[0]] + rest[1..]
  }

  /** Name and value, at the first equals sign. */
  function Cut(piece: string): (string, string) {
    if piece == [] then ("", "")
    else if piece[0] == '=' then ("", piece[1..])
    else ([piece[0]] + Cut(piece[1..]).0, Cut(piece[1..]).1)
  }

  function Cuts(pieces: seq<string>): seq<(string, string)> {
    if pieces == [] then [] else [Cut(pieces[0])] + Cuts(pieces[1..])
  }

  /** `url` is `uri` with these parameters, in this order. */
  predicate Reads(uri: string, url: string, params: seq<(string, string)>) {
    && uri <= url
    && if url == uri then params == []
       else url[|uri|] == (if '?' in uri then '&' else '?') && Cuts(SplitAt(url[|uri| + 1..], '&')) == params
  }

  /** Names without '=' and '&', values without '&'. */
  predicate Separable(params: seq<(string, string)>) {
    forall p :: p in params ==> '=' !in p.0 && '&' !in p.0 && '&' !in p.1
  }

  // ---- What it reads of a printed URL ----

  lemma {:induction false} SplitNone(s: string, sep: char)
    ensures |SplitAt(s, sep)| == 1 <==> sep !in s
    ensures sep !in s ==> SplitAt(s, sep) == [s]
  {
    if s != [] {
      assert s == [s[0]] + s[1..];
      SplitNone(s[1..], sep);
    }
  }

  lemma SplitStep(c: char, s: string, sep: char)
    ensures SplitAt([c] + s, sep) ==
            var rest := SplitAt(s, sep);
            if c == sep then [""] + rest else [[c] + rest[0]] + rest[1..]
  {
    assert ([c] + s)[1..] == s;
  }

  lemma {:induction false} SplitJoined(a: string, b: string, sep: char)
    ensures SplitAt(a + ([sep] + b), sep) == SplitAt(a, sep) + SplitAt(b, sep)
  {
    SplitStep(sep, b, sep);
    hide SplitAt;
    if a == [] {
      SplitNone(a, sep);
      assert a + ([sep] + b) == [sep] + b;
    } else {
      assert a + ([sep] + b) == [a[0]] + (a[1..] + ([sep] + b)) && a == [a[0]] + a[1..];
      SplitStep(a[0], a[1..] + ([sep] + b), sep);
      SplitStep(a[0], a[1..], sep);
      SplitJoined(a[1..], b, sep);
      var rest := SplitAt(a[1..], sep);
      assert (rest + SplitAt(b, sep))[1..] == rest[1..] + SplitAt(b, sep);
    }
  }

  /** There are as many pieces as parts exactly when no part holds the separator, and then they are the parts. */
  lemma {:induction false} SplitJoin(parts: seq<string>)
    requires parts != []
    ensures |SplitAt(Join(parts, "&"), '&')| >= |parts|
    ensures |SplitAt(Join(parts, "&"), '&')| == |parts| <==> forall p :: p in parts ==> '&' !in p
    ensures (forall p :: p in parts ==> '&' !in p) ==> SplitAt(Join(parts, "&"), '&') == parts
    decreases |parts|
  {
    assert parts == [parts[0]] + parts[1..];
    SplitNone(parts[0], '&');
    if |parts| > 1 {
      SplitJoin(parts[1..]);
      SplitJoined(parts[0], Join(parts[1..], "&"), '&');
      assert Join(parts, "&") == parts[0] + (['&'] + Join(parts[1..], "&"));
    }
  }

  lemma {:induction false} CutPair(name: string, value: string)
    ensures Cut(name + ("=" + value)) == (name, value) <==> '=' !in name
  {
    var s := name + ("=" + value);
    if name == [] {
      assert s[0] == '=' && s[1..] == value;
    } else {
      assert s[0] == name[0] && s[1..] == name[1..] + ("=" + value);
      assert name == [name[0]] + name[1..];
      CutPair(name[1..], value);
      if name[0] != '=' && '=' !in name[1..] {
        assert Cut(s) == ([name[0]] + name[1..], value);
      } else if name[0] != '=' {
        var rest := Cut(s[1..]);
        assert [name[0]] + rest.0 == name ==> rest.0 == name[1..];
      }
    }
  }

  lemma {:induction false} CutPairs(params: seq<(string, string)>)
    ensures |Pairs(params)| == |params|
    ensures Cuts(Pairs(params)) == params <==> forall p :: p in params ==> '=' !in p.0
    ensures (forall t :: t in Pairs(params) ==> '&' !in t) <==> forall p :: p in params ==> '&' !in p.0 && '&' !in p.1
  {
    if params != [] {
      var p := params[0];
      CutPair(p.0, p.1);
      assert p.0 + "=" + p.1 == p.0 + ("=" + p.1);
      CutPairs(params[1..]);
      assert params == [p] + params[1..];
      assert Cuts(Pairs(params))[1..] == Cuts(Pairs(params[1..]));
      var pair := p.0 + "=" + p.1;
      assert Pairs(params) == [pair] + Pairs(params[1..]);
      assert '&' in pair <==> '&' in p.0 || '&' in p.1;
    }
  }

  lemma {:induction false} CutsLength(pieces: seq<string>)
    ensures |Cuts(pieces)| == |pieces|
  {
    if pieces != [] {
      CutsLength(pieces[1..]);
    }
  }

  lemma {:induction false} QueryMark(s: string)
    ensures Contains(s, "?") <==> '?' in s
  {
    if s != [] {
      assert s == [s[0]] + s[1..];
      assert "?" <= s <==> s[0] == '?';
      QueryMark(s[1..]);
    }
  }

  /**
   * The exported URL is the address, and behind it - after the right mark - all parameters in order:
   * a reader finds them exactly when no name holds '=' or '&' and no value holds '&'.
   */
  lemma UrlReadsBack(a: Api)
    ensures a.uri <= FullUrl(a) && (FullUrl(a) == a.uri <==> a.params == [])
    ensures a.params != [] ==> FullUrl(a)[|a.uri|] == if '?' in a.uri then '&' else '?'
    ensures Reads(a.uri, FullUrl(a), a.params) <==> Separable(a.params)
  {
    QueryMark(a.uri);
    if a.params != [] {
      var query := Join(Pairs(a.params), "&");
      assert FullUrl(a)[|a.uri| + 1..] == query;
      SplitJoin(Pairs(a.params));
      CutPairs(a.params);
      CutsLength(SplitAt(query, '&'));
    }
  }

  // ---- When the address and the parameters can be carried ----

  /** What a caller can check on the stored texts. */
  predicate Carried(a: Api) {
    && (a.uri != "" || a.params != []) && (a.uri != "" ==> a.uri[0] != '-')
    && NoContinuation(a.uri) && (forall p :: p in a.params ==> NoContinuation(p.0) && NoContinuation(p.1))
    && NoContinuation(a.body) && forall h :: h in a.headers ==> HeaderSurvives(h)
  }

  lemma {:induction false} ContainsAcross(x: string, c: char, y: string, pat: string)
    requires pat != [] && c !in pat
    ensures Contains(x + ([c] + y), pat) <==> Contains(x, pat) || Contains(y, pat)
  {
    var s := x + ([c] + y);
    if x == [] {
      assert s == [c] + y && s[1..] == y;
      assert !(pat <= s) by {
        assert pat[0] in pat && s[0] == c;
      }
      assert !Contains(x, pat);
    } else {
      assert s[1..] == x[1..] + ([c] + y);
      ContainsAcross(x[1..], c, y, pat);
      NoMatchAcross(x, [c] + y, pat);
    }
  }

  lemma UnbrokenAcross(x: string, c: char, y: string)
    requires c !in {'\\', '\r', '\n'}
    ensures NoContinuation(x + ([c] + y)) <==> NoContinuation(x) && NoContinuation(y)
  {
    ContainsAcross(x, c, y, CRLF_CONTINUATION);
    ContainsAcross(x, c, y, LF_CONTINUATION);
  }

  lemma {:induction false} UnbrokenQuery(params: seq<(string, string)>)
    requires params != []
    ensures NoContinuation(Join(Pairs(params), "&")) <==>
            forall p :: p in params ==> NoContinuation(p.0) && NoContinuation(p.1)
    decreases |params|
  {
    hide NoContinuation;
    var p := params[0];
    assert params == [p] + params[1..];
    assert p.0 + "=" + p.1 == p.0 + (['='] + p.1);
    UnbrokenAcross(p.0, '=', p.1);
    var pair := p.0 + "=" + p.1;
    if |params| == 1 {
      assert Pairs(params) == [pair];
    } else {
      UnbrokenQuery(params[1..]);
      var rest := Join(Pairs(params[1..]), "&");
      assert Pairs(params) == [pair] + Pairs(params[1..]);
      CutPairs(params[1..]);
      assert Pairs(params)[1..] == Pairs(params[1..]);
      assert Join(Pairs(params), "&") == pair + (['&'] + rest);
      UnbrokenAcross(pair, '&', rest);
    }
  }

  /** The conditions of the round trip, on the stored texts. */
  lemma FaithfulIsCarried(a: Api)
    ensures Faithful(a) <==> Carried(a)
  {
    hide NoContinuation, HeaderSurvives;
    UrlReadsBack(a);
    if a.params != [] {
      var query := Join(Pairs(a.params), "&");
      var mark := FullUrl(a)[|a.uri|];
      assert FullUrl(a) == a.uri + ([mark] + query);
      UnbrokenAcross(a.uri, mark, query);
      UnbrokenQuery(a.params);
    }
  }

  // ---- What the importer recovers ----

  /** Method, address, parameters, headers and body, each as it was stored. */
  predicate Recovered(a: Api, r: Result<CurlRequest, ParseError>) {
    && r.Success? && r.value.method_ == a.method_ && Reads(a.uri, r.value.url, a.params)
    && r.value.headers == a.headers && r.value.body == a.body
  }

  /** Line feeds in a text. */
  function Feeds(s: string): nat {
    if s == [] then 0 else (if s[0] == '\n' then 1 else 0) + Feeds(s[1..])
  }

  lemma {:induction false} FeedsAppend(a: string, b: string)
    ensures Feeds(a + b) == Feeds(a) + Feeds(b)
  {
    if a == [] {
      assert a + b == b;
    } else {
      assert (a + b)[0] == a[0] && (a + b)[1..] == a[1..] + b;
      FeedsAppend(a[1..], b);
    }
  }

  lemma {:induction false} ReplaceDropsFeeds(s: string, pat: string)
    requires pat in {LF_CONTINUATION, CRLF_CONTINUATION}
    ensures Feeds(ReplaceAll(s, pat, " ")) <= Feeds(s)
    ensures Contains(s, pat) ==> Feeds(ReplaceAll(s, pat, " ")) < Feeds(s)
  {
    if |s| < |pat| {
      TooShort(s, pat);
    } else if pat <= s {
      var rest := s[|pat|..];
      assert s == pat + rest;
      ReplaceDropsFeeds(rest, pat);
      FeedsAppend(pat, rest);
      FeedsAppend(" ", ReplaceAll(rest, pat, " "));
      OneFeed();
    } else {
      ReplaceDropsFeeds(s[1..], pat);
      FeedsAppend([s[0]], ReplaceAll(s[1..], pat, " "));
      FeedsAppend([s[0]], s[1..]);
      assert s == [s[0]] + s[1..];
    }
  }

  lemma OneFeed()
    ensures Feeds(LF_CONTINUATION) == 1 && Feeds(CRLF_CONTINUATION) == 1 && Feeds(" ") == 0
  {
    assert LF_CONTINUATION[1..] == "\n" && CRLF_CONTINUATION[1..] == "\r\n" && "\r\n"[1..] == "\n" && "\n"[1..] == "";
    assert " "[1..] == "";
  }

  lemma UnfoldDropsFeeds(s: string)
    ensures Feeds(Unfold(s)) <= Feeds(s)
    ensures Feeds(Unfold(s)) == Feeds(s) ==> NoContinuation(s)
  {
    ReplaceDropsFeeds(s, CRLF_CONTINUATION);
    ReplaceDropsFeeds(ReplaceAll(s, CRLF_CONTINUATION, " "), LF_CONTINUATION);
    ReplaceShrinks(s, CRLF_CONTINUATION, " ");
  }

  function FeedsIn(params: seq<(string, string)>): nat {
    if params == [] then 0 else Feeds(params[0].0) + Feeds(params[0].1) + FeedsIn(params[1..])
  }

  lemma {:induction false} CutKeepsFeeds(piece: string)
    ensures Feeds(Cut(piece).0) + Feeds(Cut(piece).1) == Feeds(piece)
  {
    if piece != [] && piece[0] != '=' {
      CutKeepsFeeds(piece[1..]);
      FeedsAppend([piece[0]], Cut(piece[1..]).0);
      FeedsAppend([piece[0]], piece[1..]);
      assert piece == [piece[0]] + piece[1..];
    }
  }

  lemma {:induction false} ReadingKeepsFeeds(s: string)
    ensures FeedsIn(Cuts(SplitAt(s, '&'))) == Feeds(s)
  {
    var pieces := SplitAt(s, '&');
    CutKeepsFeeds(pieces[0]);
    assert pieces == [pieces[0]] + pieces[1..];
    if s != [] {
      var rest := SplitAt(s[1..], '&');
      ReadingKeepsFeeds(s[1..]);
      assert rest == [rest[0]] + rest[1..];
      CutKeepsFeeds(rest[0]);
      if s[0] == '&' {
        assert pieces[1..] == rest;
      } else {
        assert pieces[1..] == rest[1..];
        FeedsAppend([s[0]], rest[0]);
      }
    }
  }

  lemma {:induction false} PrintingKeepsFeeds(params: seq<(string, string)>)
    ensures Feeds(Join(Pairs(params), "&")) == FeedsIn(params)
  {
    if params != [] {
      var p := params[0];
      var pair := p.0 + "=" + p.1;
      PrintingKeepsFeeds(params[1..]);
      FeedsAppend(p.0 + "=", p.1);
      FeedsAppend(p.0, "=");
      assert Feeds("=") == 0 by { assert "="[1..] == ""; }
      var rest := Join(Pairs(params[1..]), "&");
      CutPairs(params[1..]);
      assert Pairs(params)[1..] == Pairs(params[1..]);
      if |params| > 1 {
        FeedsAppend(pair + "&", rest);
        FeedsAppend(pair, "&");
        assert Feeds("&") == 0 by { assert "&"[1..] == ""; }
      }
    }
  }

  lemma NothingRead(uri: string, url: string)
    requires Reads(uri, url, [])
    ensures url == uri
  {
  }

  /** If a reader finds the stored parameters in the unfolded URL, nothing was unfolded. */
  lemma ReadImpliesUnbroken(a: Api)
    requires Reads(a.uri, Unfold(FullUrl(a)), a.params)
    ensures NoContinuation(FullUrl(a))
  {
    var url := Unfold(FullUrl(a));
    UnfoldDropsFeeds(FullUrl(a));
    UrlReadsBack(a);
    hide Unfold;
    if a.params == [] {
      NothingRead(a.uri, url);
    } else {
      var query := url[|a.uri| + 1..];
      var mark := url[|a.uri|];
      assert url == a.uri + ([mark] + query);
      FeedsAppend(a.uri, [mark] + query);
      FeedsAppend([mark], query);
      ReadingKeepsFeeds(query);
      var printed := Join(Pairs(a.params), "&");
      assert FullUrl(a)[|a.uri|] == mark;
      assert FullUrl(a) == a.uri + ([mark] + printed);
      FeedsAppend(a.uri, [mark] + printed);
      FeedsAppend([mark], printed);
      PrintingKeepsFeeds(a.params);
    }
  }

  /** A URL that looks like an option, or no URL at all, gives no request in which the address is found again. */
  lemma AddressLost(a: Api, basic: string -> string)
    requires MethodName(a.method_) && (FullUrl(a) == "" || FullUrl(a)[0] == '-')
    ensures !Recovered(a, Parsed(ExportedLine(a), basic))
  {
    UrlReadsBack(a);
    LineTokens(a);
    var args := Arguments(a);
    assert (["curl"] + args)[1..] == args;
    var r := Parsed(ExportedLine(a), basic);
    if r.Success? && Reads(a.uri, r.value.url, a.params) {
      var u := r.value.url;
      assert args != [] && u == Scan(args, BLANK, basic).url;
      hide Scan, Unfold, Finish;
      if FullUrl(a) == "" {
        NoUrlWithout(a, basic);
        assert false;
      } else {
        assert a.uri != "" && u[0] == '-';
        UrlOrigin(args, BLANK, basic);
        var i: int :| 0 <= i < |args| - 1 && args[i] == "--url" && args[i + 1] == u;
        FlagIsUrl(a, i);
        assert false;
      }
    }
  }

  /** The only token `--url` an exported line can hold is its URL; then an option follows, not the URL. */
  lemma FlagIsUrl(a: Api, i: nat)
    requires MethodName(a.method_) && FullUrl(a) != "" && i < |Arguments(a)| - 1 && Arguments(a)[i] == "--url"
    ensures !(a.uri <= Arguments(a)[i + 1]) || a.uri == "" || a.uri[0] != '-'
  {
    if i != |MethodTokens(a)| {
      OnlyTheUrl(a, i);
      assert false;
    } else {
      AfterTheUrl(a);
      hide Arguments, MethodTokens, Unfold;
      UnfoldedUrlFlag(FullUrl(a));
      UrlReadsBack(a);
    }
  }

  lemma NoUrlWithout(a: Api, basic: string -> string)
    requires MethodName(a.method_) && FullUrl(a) == ""
    ensures Scan(Arguments(a), BLANK, basic).url == ""
  {
    hide Scan;
    var tail := HeaderTokens(a.headers) + BodyTokens(a);
    var p0 := BLANK.(method_ := if MethodTokens(a) == [] then "" else a.method_);
    assert UrlTokens(a) + tail == tail;
    ScanMethod(a, tail, basic);
    ScanHeaders(a.headers, BodyTokens(a), p0, basic);
    ScanBody(a, p0.(headers := p0.headers + Imported(a.headers)), basic);
  }

  /**
   * Importing an exported interface recovers everything that was stored, the parameters one by one,
   * exactly when the texts can be carried and the parameters told apart.
   */
  lemma RecoveredExactly(a: Api, basic: string -> string)
    requires MethodName(a.method_)
    ensures Recovered(a, Parsed(ExportedLine(a), basic)) <==> Carried(a) && Separable(a.params)
  {
    FaithfulIsCarried(a);
    if FullUrl(a) == "" || FullUrl(a)[0] == '-' {
      AddressLost(a, basic);
    } else {
      ImportedLine(a, basic);
      HeadersExact(a.headers);
      UnfoldFixed(FullUrl(a));
      UnfoldFixed(a.body);
      UrlReadsBack(a);
      hide Unfold;
      if Reads(a.uri, Unfold(FullUrl(a)), a.params) {
        ReadImpliesUnbroken(a);
      }
    }
  }

  // ---- A whole export ----

  /** Lines come in the order of the interfaces, one each, and none for an interface without a word for its method. */
  lemma {:induction false} ExportedInOrder(xs: seq<Api>, ys: seq<Api>)
    ensures Exported(xs + ys) == Exported(xs) + Exported(ys)
    ensures |xs| == 1 ==> Exported(xs) == if xs[0].method_ in {"", "UNSPECIFIED"} then "" else ExportedLine(xs[0]) + "\n"
  {
    hide ExportedLine;
    if ys == [] {
      assert xs + ys == xs;
    } else {
      var init, last := ys[..|ys| - 1], ys[|ys| - 1];
      assert (xs + ys)[..|xs + ys| - 1] == xs + init;
      ExportedInOrder(xs, init);
      var line := if Exportable(last) then ExportedLine(last) + "\n" else "";
      assert Exported(xs + ys) == Exported(xs + init) + line;
      assert Exported(ys) == Exported(init) + line;
      Regroup(Exported(xs), Exported(init), line, Exported(xs + init));
    }
    if |xs| == 1 {
      assert xs[..0] == [] && "" + Exported(xs) == Exported(xs);
    }
  }

  lemma NothingEscaped(s: string)
    requires '\'' !in s
    ensures ShellQuote(s) == "'" + s + "'"
  {
    EscapedAppend(s, "");
    assert s + "" == s;
  }

  lemma OneParameter(a: Api, name: string, value: string)
    requires a.params == [(name, value)] && '?' !in a.uri
    ensures FullUrl(a) == a.uri + "?" + name + "=" + value
  {
    QueryMark(a.uri);
    assert Pairs(a.params[1..]) == [];
  }

  lemma OneHeader(headers: seq<Header>)
    requires |headers| == 1
    ensures HeaderFlags(headers) == " -H " + ShellQuote(headers[0].0 + ": " + headers[0].1)
  {
    hide ShellQuote;
    assert headers[1..] == [];
  }

  /** The text of a line, option by option, when nothing in it needs escaping. */
  lemma ExportedText(verb: string, uri: string, name: string, value: string, head: string, text: string, body: string)
    requires verb !in {"", "GET"} && body != "" && '?' !in uri
    requires '\'' !in uri + "?" + name + "=" + value && '\'' !in head + ": " + text && '\'' !in body
    ensures ExportedLine(Api(verb, uri, [(name, value)], [(head, text)], body)) ==
            "curl" + (" -X " + verb + (" " + ("'" + (uri + "?" + name + "=" + value) + "'")
                                       + (" -H " + ("'" + (head + ": " + text) + "'") + " -d " + ("'" + body + "'"))))
  {
    var a := Api(verb, uri, [(name, value)], [(head, text)], body);
    OneParameter(a, name, value);
    NothingEscaped(uri + "?" + name + "=" + value);
    NothingEscaped(head + ": " + text);
    NothingEscaped(body);
    OneHeader(a.headers);
    hide FullUrl, ShellQuote, HeaderFlags;
    assert MethodFlag(a) == " -X " + verb;
    assert BodyFlag(a) == " -d " + ShellQuote(body);
    Regroup(" -H " + ShellQuote(head + ": " + text), " -d ", ShellQuote(body),
            " -H " + ShellQuote(head + ": " + text) + " -d ");
  }
}
