/** What the options of a curl command mean, in any order and number, against the parser's left-to-right scan. */
module CurlOptions {
  import opened Prelude
  import opened Text
  import opened CurlTokens
  import opened CurlCommand
  import opened CurlRoundTrip

  datatype Opt =
    | Method(flag: string, verb: string)     // -X POST
    | GluedMethod(verb: string)              // -XPOST
    | Head(flag: string, text: string)
    | Data(flag: string, text: string)
    | Address(url: string)                   // --url u
    | User(flag: string, text: string)
    | Get(flag: string)
    | Switch(flag: string)                   // any other option: ignored, its argument is not one
    | Loose(text: string)                    // a word that is no option

  predicate Proper(o: Opt) {
    match o
    case Method(flag, verb) => flag in {"-X", "--request"} && verb != ""
    case GluedMethod(verb) => verb != ""
    case Head(flag, _) => flag in {"-H", "--header"}
    case Data(flag, _) =>
      flag in {"-d", "--data", "--data-raw", "--data-binary", "--data-ascii", "--data-urlencode", "-F", "--form"}
    case Address(url) => url != ""
    case User(flag, _) => flag in {"-u", "--user"}
    case Get(flag) => flag in {"-G", "--get"}
    case Switch(flag) =>
      && flag != "" && flag[0] == '-' && !(|flag| >= 2 && flag[1] == 'X')
      && flag !in {"--request", "-H", "--header", "--url", "-u", "--user", "-G", "--get", "-d", "--data"}
      && flag !in {"--data-raw", "--data-binary", "--data-ascii", "--data-urlencode", "-F", "--form"}
    case Loose(text) => text != "" && text[0] != '-'
  }

  function Spelled(o: Opt): seq<string> {
    match o
    case Method(flag, verb) => [flag, verb]
    case GluedMethod(verb) => ["-X" + verb]
    case Head(flag, text) => [flag, text]
    case Data(flag, text) => [flag, text]
    case Address(url) => ["--url", url]
    case User(flag, text) => [flag, text]
    case Get(flag) => [flag]
    case Switch(flag) => [flag]
    case Loose(text) => [text]
  }

  function Written(os: seq<Opt>): seq<string> {
    if os == [] then [] else Spelled(os[0]) + Written(os[1..])
  }

  // ---- What the options say together ----

  predicate NamesMethod(o: Opt) {
    o.Method? || o.GluedMethod?
  }

  /** The last option that names a method. */
  predicate LastMethod(os: seq<Opt>, k: int) {
    0 <= k < |os| && NamesMethod(os[k]) && forall j :: k < j < |os| ==> !NamesMethod(os[j])
  }

  predicate LastAddress(os: seq<Opt>, k: int) {
    0 <= k < |os| && os[k].Address? && forall j :: k < j < |os| ==> !os[j].Address?
  }

  predicate FirstLoose(os: seq<Opt>, k: int) {
    0 <= k < |os| && os[k].Loose? && forall j :: 0 <= j < k ==> !os[j].Loose?
  }

  function Texts(os: seq<Opt>): seq<string> {
    if os == [] then [] else (if os[0].Data? then [os[0].text] else []) + Texts(os[1..])
  }

  /** Headers in order; credentials become one, and a text without a colon is none. */
  function Heads(os: seq<Opt>, basic: string -> string): seq<Header> {
    if os == [] then []
    else (if os[0].User? then [("Authorization", "Basic " + basic(os[0].text))]
          else if os[0].Head? && ':' in os[0].text then [Halves(os[0].text)]
          else []) + Heads(os[1..], basic)
  }

  /** Both sides of the first colon, trimmed. */
  function Halves(text: string): Header
    requires ':' in text
  {
    (TrimSpace(text[..ColonAt(text)]), TrimSpace(text[if ColonAt(text) < |text| then ColonAt(text) + 1 else 0..]))
  }

  predicate AsksGet(os: seq<Opt>) {
    exists k :: 0 <= k < |os| && os[k].Get?
  }

  /** The request, when there is a URL: the last --url, or else the first loose word. */
  ghost predicate Says(os: seq<Opt>, r: CurlRequest, basic: string -> string) {
    && r.body == Join(Texts(os), "&") && r.headers == Heads(os, basic)
    && (forall k :: LastMethod(os, k) ==> r.method_ == ToUpper(os[k].verb))
    && ((forall k :: 0 <= k < |os| ==> !NamesMethod(os[k])) ==>
          r.method_ == if AsksGet(os) then "GET" else if r.body != "" then "POST" else "GET")
    && (forall k :: LastAddress(os, k) ==> r.url == os[k].url)
    && ((forall k :: 0 <= k < |os| ==> !os[k].Address?) ==> forall k :: FirstLoose(os, k) ==> r.url == os[k].text)
  }

  // ---- The scan, one option at a time ----

  /** What the scan has gathered after the options. */
  ghost predicate Gathered(os: seq<Opt>, p: Partial, basic: string -> string) {
    && p.data == Texts(os) && p.headers == Heads(os, basic)
    && (forall k :: LastMethod(os, k) ==> p.method_ == ToUpper(os[k].verb) && p.method_ != "")
    && ((forall k :: 0 <= k < |os| ==> !NamesMethod(os[k])) ==> p.method_ == if AsksGet(os) then "GET" else "")
    && (forall k :: LastAddress(os, k) ==> p.url == os[k].url)
    && ((forall k :: 0 <= k < |os| ==> !os[k].Address?) ==> forall k :: FirstLoose(os, k) ==> p.url == os[k].text)
    && (p.url == "" <==> forall k :: 0 <= k < |os| ==> !os[k].Address? && !os[k].Loose?)
  }

  /** The effect of one option. */
  function Step(p: Partial, o: Opt, basic: string -> string): Partial {
    match o
    case Method(_, verb) => p.(method_ := ToUpper(verb))
    case GluedMethod(verb) => p.(method_ := ToUpper(verb))
    case Head(_, text) => if ':' in text then p.(headers := p.headers + [Halves(text)]) else p
    case Data(_, text) => p.(data := p.data + [text])
    case Address(url) => p.(url := url)
    case User(_, text) => p.(headers := p.headers + [("Authorization", "Basic " + basic(text))])
    case Get(_) => if p.method_ == "" then p.(method_ := "GET") else p
    case Switch(_) => p
    case Loose(text) => if p.url == "" then p.(url := text) else p
  }

  lemma HeadRead(text: string)
    ensures ReadHeader(text) == if ':' in text then Some(Halves(text)) else None
  {
  }

  /** A data flag is none of the options looked for before it. */
  lemma DataFlag(flag: string)
    requires flag in {"-d", "--data", "--data-raw", "--data-binary", "--data-ascii", "--data-urlencode", "-F", "--form"}
    ensures flag in DATA_FLAGS && flag !in {"-X", "--request", "-H", "--header"} && !("-X" <= flag)
  {
    assert flag[1] in {'d', 'F', '-'};
    assert flag[1] == '-' ==> flag[2] in {'d', 'f'};
    assert "--request"[2] == 'r' && "--header"[2] == 'h';
  }

  lemma ScanData(o: Opt, rest: seq<string>, p: Partial, basic: string -> string)
    requires Proper(o) && o.Data?
    ensures Scan(Spelled(o) + rest, p, basic) == Scan(rest, Step(p, o, basic), basic)
  {
    DataFlag(o.flag);
    hide Scan;
    ScanPair(o.flag, o.text, rest, p, basic);
    assert Take([o.flag, o.text], p, basic) == Step(p, o, basic);
  }

  /** None of the other flags is a data flag, or starts with -X. */
  lemma OtherFlag(flag: string)
    requires flag in {"-H", "--header", "--url", "-u", "--user", "-G", "--get"}
    ensures flag !in DATA_FLAGS && !("-X" <= flag) && "-" <= flag && flag != "--request"
  {
    assert flag[1] in {'H', 'u', 'G', '-'};
    assert flag[1] == '-' ==> flag[2] in {'h', 'u', 'g'};
    assert "--request"[2] == 'r' && "--form"[2] == 'f' && "--data"[2] == 'd' && "--data-raw"[2] == 'd';
    assert "--data-binary"[2] == 'd' && "--data-ascii"[2] == 'd' && "--data-urlencode"[2] == 'd';
  }

  lemma ScanPairOpt(o: Opt, rest: seq<string>, p: Partial, basic: string -> string)
    requires Proper(o) && (o.Method? || o.Head? || o.Address? || o.User?)
    ensures Scan(Spelled(o) + rest, p, basic) == Scan(rest, Step(p, o, basic), basic)
  {
    var flag, arg := Spelled(o)[0], Spelled(o)[1];
    if o.Head? {
      HeadRead(o.text);
    }
    if !o.Method? {
      OtherFlag(flag);
    }
    hide Scan, ReadHeader, Halves, DATA_FLAGS;
    ScanPair(flag, arg, rest, p, basic);
    assert Spelled(o) == [flag, arg];
  }

  lemma ScanSingle(t: string, rest: seq<string>, p: Partial, basic: string -> string)
    requires !TakesArgument(t)
    ensures Scan([t] + rest, p, basic) == Scan(rest, Take([t], p, basic), basic)
  {
    var tokens := [t] + rest;
    assert tokens[0] == t && tokens[1..] == rest;
    TakeAlone(tokens, t, p, basic);
  }

  lemma TakeAlone(tokens: seq<string>, t: string, p: Partial, basic: string -> string)
    requires !TakesArgument(t) && tokens != [] && tokens[0] == t
    ensures Take(tokens, p, basic) == Take([t], p, basic)
  {
    hide ReadHeader, ToUpper;
  }

  lemma SwitchFlag(flag: string)
    requires Proper(Switch(flag))
    ensures !("-X" <= flag) && "-" <= flag && flag !in DATA_FLAGS && flag != "-X" && !TakesArgument(flag)
  {
  }

  lemma ScanSingleOpt(o: Opt, rest: seq<string>, p: Partial, basic: string -> string)
    requires Proper(o) && (o.GluedMethod? || o.Get? || o.Switch? || o.Loose?)
    ensures Scan(Spelled(o) + rest, p, basic) == Scan(rest, Step(p, o, basic), basic)
  {
    var t := Spelled(o)[0];
    match o {
      case GluedMethod(verb) => GluedFlag(verb);
      case Get(flag) => OtherFlag(flag);
      case Switch(flag) => SwitchFlag(flag);
      case Loose(text) => NoDash(text);
    }
    hide Scan, DATA_FLAGS;
    assert !TakesArgument(t);
    ScanSingle(t, rest, p, basic);
  }

  lemma GluedFlag(verb: string)
    requires verb != ""
    ensures var t := "-X" + verb; "-X" <= t && t[2..] == verb && |t| > 2 && t != "-X" && t != "--request"
  {
    assert "--request"[1] == '-' && ("-X" + verb)[1] == 'X';
  }

  lemma ScanOpt(o: Opt, rest: seq<string>, p: Partial, basic: string -> string)
    requires Proper(o)
    ensures Scan(Spelled(o) + rest, p, basic) == Scan(rest, Step(p, o, basic), basic)
  {
    hide Scan, Step;
    if o.Data? {
      ScanData(o, rest, p, basic);
    } else if o.Method? || o.Head? || o.Address? || o.User? {
      ScanPairOpt(o, rest, p, basic);
    } else {
      ScanSingleOpt(o, rest, p, basic);
    }
  }

  function Stepped(os: seq<Opt>, basic: string -> string): Partial {
    if os == [] then BLANK else Step(Stepped(os[..|os| - 1], basic), os[|os| - 1], basic)
  }

  lemma ScanNothing(p: Partial, basic: string -> string)
    ensures Scan([], p, basic) == p
  {
  }

  lemma {:induction false} ScanWritten(done: seq<Opt>, os: seq<Opt>, basic: string -> string)
    requires forall o :: o in os ==> Proper(o)
    ensures Scan(Written(os), Stepped(done, basic), basic) == Stepped(done + os, basic)
    decreases |os|
  {
    hide Step, Scan, Spelled, Proper;
    if os == [] {
      assert done + os == done;
      ScanNothing(Stepped(done, basic), basic);
    } else {
      var more := done + [os[0]];
      assert more[..|more| - 1] == done;
      assert os == [os[0]] + os[1..];
      ScanOpt(os[0], Written(os[1..]), Stepped(done, basic), basic);
      ScanWritten(more, os[1..], basic);
      assert more + os[1..] == done + os;
    }
  }

  lemma {:induction false} TextsMore(os: seq<Opt>, o: Opt)
    ensures Texts(os + [o]) == Texts(os) + if o.Data? then [o.text] else []
  {
    if os == [] {
      assert [o][1..] == [];
    } else {
      assert (os + [o])[0] == os[0] && (os + [o])[1..] == os[1..] + [o];
      TextsMore(os[1..], o);
    }
  }

  lemma {:induction false} HeadsMore(os: seq<Opt>, o: Opt, basic: string -> string)
    ensures Heads(os + [o], basic) == Heads(os, basic) + Heads([o], basic)
  {
    if os == [] {
      assert os + [o] == [o];
    } else {
      assert (os + [o])[0] == os[0] && (os + [o])[1..] == os[1..] + [o];
      HeadsMore(os[1..], o, basic);
    }
  }

  lemma UpperKept(s: string)
    ensures ToUpper(s) == "" <==> s == ""
  {
  }

  lemma GatheredMore(os: seq<Opt>, o: Opt, p: Partial, basic: string -> string)
    requires Proper(o) && Gathered(os, p, basic)
    ensures Gathered(os + [o], Step(p, o, basic), basic)
  {
    var q := Step(p, o, basic);
    ListsMore(os, o, p, q, basic);
    MethodMore(os, o, p, q, basic);
    UrlMore(os, o, p, q, basic);
    hide Texts, Heads, Step, LastMethod, LastAddress, FirstLoose, AsksGet, NamesMethod, Proper;
  }

  lemma ListsMore(os: seq<Opt>, o: Opt, p: Partial, q: Partial, basic: string -> string)
    requires Gathered(os, p, basic) && q == Step(p, o, basic)
    ensures q.data == Texts(os + [o]) && q.headers == Heads(os + [o], basic)
  {
    TextsMore(os, o);
    HeadsMore(os, o, basic);
    assert Heads([o][1..], basic) == [];
    hide Halves, Texts, ToUpper, LastMethod, LastAddress, FirstLoose;
  }

  lemma MethodMore(os: seq<Opt>, o: Opt, p: Partial, q: Partial, basic: string -> string)
    requires Proper(o) && Gathered(os, p, basic) && q == Step(p, o, basic)
    ensures var more := os + [o];
            && (forall k :: LastMethod(more, k) ==> q.method_ == ToUpper(more[k].verb) && q.method_ != "")
            && ((forall k :: 0 <= k < |more| ==> !NamesMethod(more[k])) ==> q.method_ == if AsksGet(more) then "GET" else "")
  {
    var more := os + [o];
    assert more[|os|] == o && forall k :: 0 <= k < |os| ==> more[k] == os[k];
    forall k | LastMethod(more, k)
      ensures q.method_ == ToUpper(more[k].verb) && q.method_ != ""
    {
      if k < |os| {
        assert !NamesMethod(more[|os|]);
        assert LastMethod(os, k);
      } else {
        UpperKept(o.verb);
      }
    }
    if forall k :: 0 <= k < |more| ==> !NamesMethod(more[k]) {
      assert forall k :: 0 <= k < |os| ==> !NamesMethod(os[k]);
      assert !NamesMethod(more[|os|]);
      assert AsksGet(more) <==> AsksGet(os) || o.Get?;
    }
  }

  lemma UrlMore(os: seq<Opt>, o: Opt, p: Partial, q: Partial, basic: string -> string)
    requires Proper(o) && Gathered(os, p, basic) && q == Step(p, o, basic)
    ensures var more := os + [o];
            && (forall k :: LastAddress(more, k) ==> q.url == more[k].url)
            && ((forall k :: 0 <= k < |more| ==> !more[k].Address?) ==> forall k :: FirstLoose(more, k) ==> q.url == more[k].text)
            && (q.url == "" <==> forall k :: 0 <= k < |more| ==> !more[k].Address? && !more[k].Loose?)
  {
    var more := os + [o];
    assert more[|os|] == o && forall k :: 0 <= k < |os| ==> more[k] == os[k];
    forall k | LastAddress(more, k) ensures q.url == more[k].url {
      if k < |os| {
        assert !more[|os|].Address?;
        assert LastAddress(os, k);
        assert p.url != "";
      }
    }
    if forall k :: 0 <= k < |more| ==> !more[k].Address? {
      assert forall k :: 0 <= k < |os| ==> !os[k].Address?;
      assert !more[|os|].Address?;
      forall k | FirstLoose(more, k) ensures q.url == more[k].text {
        if k < |os| {
          assert FirstLoose(os, k);
        }
      }
    }
  }

  lemma {:induction false} AllGathered(os: seq<Opt>, basic: string -> string)
    requires forall o :: o in os ==> Proper(o)
    ensures Gathered(os, Stepped(os, basic), basic)
  {
    hide Step;
    if os != [] {
      var init := os[..|os| - 1];
      AllGathered(init, basic);
      assert os == init + [os[|os| - 1]];
      hide Gathered;
      GatheredMore(init, os[|os| - 1], Stepped(init, basic), basic);
    }
  }

  /**
   * A command of quoted words made of options in any order: it has no URL exactly when no option
   * brings one, and otherwise the request says what the options say together.
   */
  lemma OptionsRead(os: seq<Opt>, basic: string -> string)
    requires (forall o :: o in os ==> Proper(o)) && os != [] && forall t :: t in Written(os) ==> Survives(t)
    ensures var r := Parsed(QuotedLine(["curl"] + Written(os)), basic);
            && (r == Failure(NoUrl) <==> forall k :: 0 <= k < |os| ==> !os[k].Address? && !os[k].Loose?)
            && (r.Success? || r == Failure(NoUrl))
            && (r.Success? ==> Says(os, r.value, basic))
  {
    hide Parsed, Finish, Scan, Stepped, Written, Gathered, Says, Tokens, Survives, Proper, QuotedLine;
    var tokens := ["curl"] + Written(os);
    assert tokens[0] == "curl" && tokens[1..] == Written(os);
    CurlSurvives();
    WrittenSome(os);
    QuoteThenTokenize(tokens);
    ScanAll(os, basic);
    AllGathered(os, basic);
    var p := Stepped(os, basic);
    ParsedTokens(tokens, p, basic);
    FinishSays(os, p, basic);
  }

  lemma WrittenSome(os: seq<Opt>)
    requires os != []
    ensures Written(os) != []
  {
  }

  lemma ScanAll(os: seq<Opt>, basic: string -> string)
    requires forall o :: o in os ==> Proper(o)
    ensures Scan(Written(os), BLANK, basic) == Stepped(os, basic)
  {
    hide Scan, Step, Written, Proper;
    assert Stepped([], basic) == BLANK && [] + os == os;
    ScanWritten([], os, basic);
  }

  lemma ParsedTokens(tokens: seq<string>, p: Partial, basic: string -> string)
    requires |tokens| > 1 && tokens[0] == "curl" && Scan(tokens[1..], BLANK, basic) == p
    requires Tokens(QuotedLine(tokens)) == Success(tokens)
    ensures Parsed(QuotedLine(tokens), basic) == Finish(p)
  {
    hide Scan, Tokens, Finish;
  }

  lemma CurlSurvives()
    ensures Survives("curl")
  {
    NotAcross("curl", LF_CONTINUATION);
    NotAcross("curl", CRLF_CONTINUATION);
  }

  lemma {:induction false} NotAcross(s: string, pat: string)
    requires pat != [] && pat[0] !in s
    ensures !Contains(s, pat)
  {
    if s != [] {
      assert s == [s[0]] + s[1..];
      NotAcross(s[1..], pat);
    }
  }

  lemma FinishSays(os: seq<Opt>, p: Partial, basic: string -> string)
    requires Gathered(os, p, basic)
    ensures Finish(p) == Failure(NoUrl) <==> forall k :: 0 <= k < |os| ==> !os[k].Address? && !os[k].Loose?
    ensures p.url != "" ==> Finish(p).Success? && Says(os, Finish(p).value, basic)
    ensures p.url == "" ==> Finish(p) == Failure(NoUrl)
  {
  }

  // ---- The edges of a command ----

  /** An option at the very end of the line takes the empty text. */
  lemma OptionAtTheEnd(flag: string, p: Partial, basic: string -> string)
    requires TakesArgument(flag)
    ensures Scan([flag], p, basic) == Scan([flag, ""], p, basic)
  {
    ScanPair(flag, "", [], p, basic);
    assert [flag, ""] + [] == [flag, ""];
    TakeAtTheEnd(flag, p, basic);
    assert AfterArgument([flag]) == [];
  }

  lemma TakeAtTheEnd(flag: string, p: Partial, basic: string -> string)
    requires TakesArgument(flag)
    ensures Take([flag], p, basic) == Take([flag, ""], p, basic)
  {
    hide ReadHeader, ToUpper;
  }

  /** The word `curl` in front may be missing, and a command of nothing else is none. */
  lemma CurlOptional(tokens: seq<string>, basic: string -> string)
    requires (forall t :: t in tokens ==> Survives(t)) && (tokens != [] ==> tokens[0] != "curl")
    ensures Parsed(QuotedLine(["curl"] + tokens), basic) == Parsed(QuotedLine(tokens), basic)
    ensures tokens == [] ==> Parsed(QuotedLine(tokens), basic) == Failure(EmptyCommand)
    ensures tokens != [] ==> Parsed(QuotedLine(tokens), basic) == Finish(Scan(tokens, BLANK, basic))
  {
    hide Scan, Tokens, Finish, Survives, QuotedLine;
    CurlSurvives();
    QuoteThenTokenize(tokens);
    QuoteThenTokenize(["curl"] + tokens);
    assert (["curl"] + tokens)[0] == "curl" && (["curl"] + tokens)[1..] == tokens;
  }
}
