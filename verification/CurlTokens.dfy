/** The shell-style tokenizer of curl commands and the quoting it undoes. */
module CurlTokens {
  import opened Prelude
  import opened Text

  const LF_CONTINUATION := "\\\n"
  const CRLF_CONTINUATION := "\\\r\n"

  /** Continuation lines become a space first, wherever they stand - inside quotes too. */
  function Unfold(s: string): string {
    ReplaceAll(ReplaceAll(s, CRLF_CONTINUATION, " "), LF_CONTINUATION, " ")
  }

  predicate NoContinuation(s: string) {
    !Contains(s, CRLF_CONTINUATION) && !Contains(s, LF_CONTINUATION)
  }

  datatype Lexer = Lexer(out: seq<string>, cur: string, quote: Option<char>) {
    function Put(c: char): Lexer { this.(cur := cur + [c]) }
    function Flush(): Lexer { if cur == [] then this else Lexer(out + [cur], [], quote) }
  }

  const START := Lexer([], [], None)

  datatype LexError = UnterminatedQuote

  /** The quoting automaton, one decision per character (two for an escape outside quotes). */
  function Lex(s: string, l: Lexer): Result<seq<string>, LexError> {
    if s == [] then
      if l.quote.Some? then Failure(UnterminatedQuote) else Success(l.Flush().out)
    else
      var c := s[0];
      if l.quote.None? && (c == '\'' || c == '"') then Lex(s[1..], l.(quote := Some(c)))
      else if l.quote == Some(c) then Lex(s[1..], l.(quote := None))
      else if l.quote.None? && (c == ' ' || c == '\t') then Lex(s[1..], l.Flush())
      else if l.quote.None? && c == '\\' && |s| > 1 then Lex(s[2..], l.Put(s[1]))
      else Lex(s[1..], l.Put(c))
  }

  function Tokens(s: string): Result<seq<string>, LexError> {
    Lex(Unfold(s), START)
  }

  method Tokenize(s: string) returns (r: Result<seq<string>, LexError>)
    ensures r == Tokens(s)
  {
    var runes := ReplaceAll(s, CRLF_CONTINUATION, " ");
    runes := ReplaceAll(runes, LF_CONTINUATION, " ");
    var out: seq<string>, cur: string, quote: Option<char> := [], [], None;
    var i := 0;
    while i < |runes|
      invariant 0 <= i <= |runes|
      invariant Lex(runes[i..], Lexer(out, cur, quote)) == Tokens(s)
    {
      var c := runes[i];
      if quote.None? && (c == '\'' || c == '"') {
        quote := Some(c);
      } else if quote.Some? && c == quote.value {
        quote := None;
      } else if quote.None? && (c == ' ' || c == '\t') {
        if |cur| > 0 {
          out, cur := out + [cur], [];
        }
      } else if quote.None? && c == '\\' && i + 1 < |runes| {
        i := i + 1;
        cur := cur + [runes[i]];
      } else {
        cur := cur + [c];
      }
      i := i + 1;
    }
    if quote.Some? {
      return Failure(UnterminatedQuote);
    }
    if |cur| > 0 {
      out := out + [cur];
    }
    return Success(out);
  }

  // ---- Quoting and how the automaton reads it back ----

  function Escaped(s: string): string {
    ReplaceAll(s, "'", "'\\''")
  }

  function ShellQuote(s: string): string {
    "'" + Escaped(s) + "'"
  }

  /** Close the quote, a quote behind a backslash, open it again. */
  lemma LexEscapedQuote(tail: string, l: Lexer)
    requires l.quote == Some('\'')
    ensures Lex("'\\''" + tail, l) == Lex(tail, l.Put('\''))
  {
    var s := "'\\''" + tail;
    assert s[0] == '\'' && s[1] == '\\' && s[2] == '\'' && s[3] == '\'';
    assert s[1..][0] == '\\' && s[1..][1] == '\'' && s[1..][2..] == s[3..];
    assert s[3..][0] == '\'' && s[3..][1..] == tail;
    assert Lex(s, l) == Lex(s[1..], l.(quote := None)) == Lex(s[3..], l.(quote := None).Put('\''));
  }

  lemma {:induction false} LexInsideQuote(t: string, rest: string, l: Lexer)
    requires l.quote == Some('\'')
    ensures Lex(Escaped(t) + "'" + rest, l) == Lex(rest, l.(cur := l.cur + t, quote := None))
  {
    var s := Escaped(t) + "'" + rest;
    if t == [] {
      assert s[0] == '\'' && s[1..] == rest;
      assert l.cur + t == l.cur;
    } else if t[0] == '\'' {
      LexInsideQuote(t[1..], rest, l.Put('\''));
      var tail := Escaped(t[1..]) + "'" + rest;
      assert Escaped(t) == "'\\''" + Escaped(t[1..]);
      assert s == "'\\''" + tail;
      LexEscapedQuote(tail, l);
      assert (l.cur + ['\'']) + t[1..] == l.cur + t;
    } else {
      LexInsideQuote(t[1..], rest, l.Put(t[0]));
      var tail := Escaped(t[1..]) + "'" + rest;
      assert Escaped(t) == [t[0]] + Escaped(t[1..]);
      assert s[0] == t[0] && s[1..] == tail;
      assert (l.cur + [t[0]]) + t[1..] == l.cur + t;
    }
  }

  lemma LexQuoted(t: string, rest: string, l: Lexer)
    requires l.quote.None?
    ensures Lex(ShellQuote(t) + rest, l) == Lex(rest, l.(cur := l.cur + t))
  {
    var s := ShellQuote(t) + rest;
    assert s[0] == '\'' && s[1..] == Escaped(t) + "'" + rest;
    LexInsideQuote(t, rest, l.(quote := Some('\'')));
  }

  /** Characters that mean themselves outside quotes, and take no part in a continuation. */
  predicate Plain(s: string) {
    forall c :: c in s ==> c !in {'\'', '"', ' ', '\t', '\\', '\r', '\n'}
  }

  lemma {:induction false} LexPlain(t: string, rest: string, l: Lexer)
    requires l.quote.None? && Plain(t)
    ensures Lex(t + rest, l) == Lex(rest, l.(cur := l.cur + t))
  {
    if t == [] {
      assert t + rest == rest && l.cur + t == l.cur;
    } else {
      var s := t + rest;
      assert t[0] in t && forall c :: c in t[1..] ==> c in t;
      assert s[0] == t[0] && s[1..] == t[1..] + rest;
      LexPlain(t[1..], rest, l.Put(t[0]));
      assert (l.cur + [t[0]]) + t[1..] == l.cur + t;
    }
  }

  // ---- Unfolding does not disturb the quoting ----

  /** The rest of a quoted text, its closing quote, and what follows. */
  function Inside(t: string, rest: string): string {
    Escaped(t) + (['\''] + rest)
  }

  lemma InsideAppend(a: string, t: string, rest: string)
    requires '\'' !in a
    ensures Inside(a + t, rest) == a + Inside(t, rest)
  {
    EscapedAppend(a, t);
  }

  lemma InsideQuote(t: string, rest: string)
    ensures Inside(['\''] + t, rest) == "'\\''" + Inside(t, rest)
  {
    EscapedQuote(t);
  }

  /** Replacing a quote-free pattern commutes with escaping quotes. */
  lemma {:induction false} EscapeReplace(t: string, rest: string, pat: string)
    requires |pat| >= 2 && '\'' !in pat
    ensures ReplaceAll(Inside(t, rest), pat, " ") == Inside(ReplaceAll(t, pat, " "), ReplaceAll(rest, pat, " "))
  {
    var after := ReplaceAll(rest, pat, " ");
    if t == [] {
      assert Inside(t, rest) == ['\''] + rest && Inside(t, after) == ['\''] + after;
      ReplaceSkipForeign('\'', rest, pat, " ");
    } else if pat <= t {
      var u := t[|pat|..];
      assert t == pat + u;
      EscapeReplace(u, rest, pat);
      InsideAppend(pat, u, rest);
      InsideAppend(" ", ReplaceAll(u, pat, " "), after);
      ReplaceHit(u, pat, " ");
      ReplaceHit(Inside(u, rest), pat, " ");
    } else {
      var c, u := t[0], t[1..];
      assert t == [c] + u;
      EscapeReplace(u, rest, pat);
      ReplaceSkip(c, u, pat, " ");
      if c == '\'' {
        InsideQuote(u, rest);
        InsideQuote(ReplaceAll(u, pat, " "), after);
        SkipEscapedQuote(Inside(u, rest), pat);
      } else {
        InsideAppend([c], u, rest);
        InsideAppend([c], ReplaceAll(u, pat, " "), after);
        EscapedPrefix(t, rest, pat);
        ReplaceSkip(c, Inside(u, rest), pat, " ");
      }
    }
  }

  lemma EscapedQuote(u: string)
    ensures Escaped(['\''] + u) == "'\\''" + Escaped(u)
  {
    ReplaceHit(u, "'", "'\\''");
  }

  lemma SkipEscapedQuote(tail: string, pat: string)
    requires |pat| >= 2 && '\'' !in pat
    ensures ReplaceAll("'\\''" + tail, pat, " ") == "'\\''" + ReplaceAll(tail, pat, " ")
  {
    hide ReplaceAll;
    var one := ['\''] + tail;
    var two := ['\''] + one;
    var three := ['\\'] + two;
    assert "'\\''" + tail == ['\''] + three;
    ReplaceSkipForeign('\'', tail, pat, " ");
    ReplaceSkipForeign('\'', one, pat, " ");
    assert pat[1] in pat && three[1] == '\'';
    ReplaceSkip('\\', two, pat, " ");
    ReplaceSkipForeign('\'', three, pat, " ");
  }

  lemma {:induction false} EscapedAppend(a: string, b: string)
    requires '\'' !in a
    ensures Escaped(a + b) == a + Escaped(b)
  {
    if a == [] {
      assert a + b == b;
    } else {
      assert (a + b)[0] == a[0] && (a + b)[1..] == a[1..] + b && a[0] in a;
      EscapedAppend(a[1..], b);
    }
  }

  lemma {:induction false} EscapedPrefix(t: string, rest: string, pat: string)
    requires '\'' !in pat
    ensures pat <= Inside(t, rest) <==> pat <= t
  {
    var s := Inside(t, rest);
    if pat == [] {
    } else if t == [] || t[0] == '\'' {
      assert s[0] == '\'' && pat[0] in pat;
    } else {
      assert Escaped(t) == [t[0]] + Escaped(t[1..]);
      assert s[0] == t[0] && s[1..] == Inside(t[1..], rest);
      EscapedPrefix(t[1..], rest, pat[1..]);
      assert pat == [pat[0]] + pat[1..] && t == [t[0]] + t[1..] && s == [s[0]] + s[1..];
    }
  }

  /** Unfolding a quoted text quotes the unfolded text. */
  lemma UnfoldQuoted(t: string, rest: string)
    ensures Unfold(ShellQuote(t) + rest) == ShellQuote(Unfold(t)) + Unfold(rest)
  {
    hide ReplaceAll, ShellQuote;
    var once, restOnce := ReplaceAll(t, CRLF_CONTINUATION, " "), ReplaceAll(rest, CRLF_CONTINUATION, " ");
    QuotedReplace(t, rest, CRLF_CONTINUATION);
    QuotedReplace(once, restOnce, LF_CONTINUATION);
  }

  lemma QuotedReplace(t: string, rest: string, pat: string)
    requires |pat| >= 2 && '\'' !in pat
    ensures ReplaceAll(ShellQuote(t) + rest, pat, " ") == ShellQuote(ReplaceAll(t, pat, " ")) + ReplaceAll(rest, pat, " ")
  {
    hide ReplaceAll, Escaped;
    assert ShellQuote(t) + rest == ['\''] + Inside(t, rest);
    ReplaceSkipForeign('\'', Inside(t, rest), pat, " ");
    EscapeReplace(t, rest, pat);
    assert ShellQuote(ReplaceAll(t, pat, " ")) + ReplaceAll(rest, pat, " ") ==
           ['\''] + Inside(ReplaceAll(t, pat, " "), ReplaceAll(rest, pat, " "));
  }

  lemma {:induction false} UnfoldPlain(t: string, rest: string)
    requires Plain(t)
    ensures Unfold(t + rest) == t + Unfold(rest)
  {
    if t == [] {
      assert t + rest == rest;
    } else {
      assert t[0] in t && forall c :: c in t[1..] ==> c in t;
      assert t + rest == [t[0]] + (t[1..] + rest);
      UnfoldPlain(t[1..], rest);
      UnfoldChar(t[0], t[1..] + rest);
    }
  }

  lemma UnfoldChar(c: char, rest: string)
    requires c !in {'\\', '\r', '\n'}
    ensures Unfold([c] + rest) == [c] + Unfold(rest)
  {
    ReplaceSkipForeign(c, rest, CRLF_CONTINUATION, " ");
    ReplaceSkipForeign(c, ReplaceAll(rest, CRLF_CONTINUATION, " "), LF_CONTINUATION, " ");
  }

  /** Unfolding leaves a text as it is exactly when it holds no continuation. */
  lemma UnfoldFixed(t: string)
    ensures |Unfold(t)| <= |t|
    ensures |Unfold(t)| == |t| <==> NoContinuation(t)
    ensures NoContinuation(t) ==> Unfold(t) == t
    ensures Unfold(t) == [] <==> t == []
  {
    ReplaceShrinks(t, CRLF_CONTINUATION, " ");
    ReplaceShrinks(ReplaceAll(t, CRLF_CONTINUATION, " "), LF_CONTINUATION, " ");
  }

  // ---- The other ways to write a word ----

  function Backslashed(s: string): string {
    if s == [] then [] else ['\\', s[0]] + Backslashed(s[1..])
  }

  lemma UnfoldSlashedChar(c: char, rest: string)
    requires c !in {'\\', '\r', '\n'}
    ensures Unfold(['\\', c] + rest) == ['\\', c] + Unfold(rest)
  {
    SlashReplace(c, rest, CRLF_CONTINUATION);
    SlashReplace(c, ReplaceAll(rest, CRLF_CONTINUATION, " "), LF_CONTINUATION);
  }

  lemma SlashReplace(c: char, rest: string, pat: string)
    requires |pat| >= 2 && c !in pat
    ensures ReplaceAll(['\\', c] + rest, pat, " ") == ['\\', c] + ReplaceAll(rest, pat, " ")
  {
    hide ReplaceAll;
    var tail := [c] + rest;
    assert ['\\', c] + rest == ['\\'] + tail;
    ReplaceSkipForeign(c, rest, pat, " ");
    assert pat[1] in pat && (['\\'] + tail)[1] == c;
    ReplaceSkip('\\', tail, pat, " ");
    assert ['\\', c] + ReplaceAll(rest, pat, " ") == ['\\'] + ([c] + ReplaceAll(rest, pat, " "));
  }

  lemma {:induction false} LexSlashed(t: string, rest: string, l: Lexer)
    requires l.quote.None? && forall c :: c in t ==> c !in {'\\', '\r', '\n'}
    ensures Lex(Unfold(Backslashed(t) + rest), l) == Lex(Unfold(rest), l.(cur := l.cur + t))
  {
    if t == [] {
      assert Backslashed(t) + rest == rest && l.cur + t == l.cur;
    } else {
      assert t[0] in t && forall c :: c in t[1..] ==> c in t;
      var tail := Backslashed(t[1..]) + rest;
      assert Backslashed(t) + rest == ['\\', t[0]] + tail;
      UnfoldSlashedChar(t[0], tail);
      var s := ['\\', t[0]] + Unfold(tail);
      assert s[0] == '\\' && s[1] == t[0] && s[2..] == Unfold(tail);
      assert Lex(s, l) == Lex(s[2..], l.Put(s[1]));
      LexSlashed(t[1..], rest, l.Put(t[0]));
      assert (l.cur + [t[0]]) + t[1..] == l.cur + t;
    }
  }

  lemma {:induction false} LexInsideDouble(t: string, rest: string, l: Lexer)
    requires l.quote == Some('"') && '"' !in t
    ensures Lex(t + (['"'] + rest), l) == Lex(rest, l.(cur := l.cur + t, quote := None))
  {
    var s := t + (['"'] + rest);
    if t == [] {
      assert s[0] == '"' && s[1..] == rest && l.cur + t == l.cur;
    } else {
      assert t == [t[0]] + t[1..];
      assert s[0] == t[0] && s[1..] == t[1..] + (['"'] + rest);
      LexInsideDouble(t[1..], rest, l.Put(t[0]));
      assert (l.cur + [t[0]]) + t[1..] == l.cur + t;
    }
  }

  lemma UnfoldDouble(t: string, rest: string)
    ensures Unfold("\"" + t + "\"" + rest) == ['"'] + (Unfold(t) + (['"'] + Unfold(rest)))
    ensures '"' !in t ==> '"' !in Unfold(t)
  {
    var tail := t + (['"'] + rest);
    assert "\"" + t + "\"" + rest == ['"'] + tail;
    UnfoldChar('"', tail);
    ReplaceSplit(t, ['"'] + rest, CRLF_CONTINUATION, " ");
    ReplaceSkipForeign('"', rest, CRLF_CONTINUATION, " ");
    var once := ReplaceAll(t, CRLF_CONTINUATION, " ");
    var restOnce := ReplaceAll(rest, CRLF_CONTINUATION, " ");
    ReplaceSplit(once, ['"'] + restOnce, LF_CONTINUATION, " ");
    ReplaceSkipForeign('"', restOnce, LF_CONTINUATION, " ");
    ReplaceKeeps(t, CRLF_CONTINUATION, " ", '"');
    ReplaceKeeps(once, LF_CONTINUATION, " ", '"');
  }

  lemma LexDouble(t: string, rest: string, l: Lexer)
    requires l.quote.None? && '"' !in t
    ensures Lex(Unfold("\"" + t + "\"" + rest), l) == Lex(Unfold(rest), l.(cur := l.cur + Unfold(t)))
  {
    UnfoldDouble(t, rest);
    var s := ['"'] + (Unfold(t) + (['"'] + Unfold(rest)));
    assert s[0] == '"' && s[1..] == Unfold(t) + (['"'] + Unfold(rest));
    LexInsideDouble(Unfold(t), Unfold(rest), l.(quote := Some('"')));
  }

  /** A tab separates words as a space does. */
  lemma LexTab(rest: string, l: Lexer)
    requires l.quote.None?
    ensures Lex(Unfold("\t" + rest), l) == Lex(Unfold(" " + rest), l)
  {
    UnfoldChar('\t', rest);
    UnfoldChar(' ', rest);
    var s, t := "\t" + Unfold(rest), " " + Unfold(rest);
    assert s[0] == '\t' && t[0] == ' ' && s[1..] == t[1..];
  }

  lemma {:induction false} LexUnclosed(s: string, l: Lexer)
    requires l.quote.Some? && l.quote.value !in s
    ensures Lex(s, l) == Failure(UnterminatedQuote)
  {
    if s != [] {
      assert s == [s[0]] + s[1..];
      LexUnclosed(s[1..], l.Put(s[0]));
    }
  }

  // ---- The round trip ----

  /** A piece of a command line: as it is, between quotes of either kind, or with a backslash before each character. */
  datatype Word = Bare(text: string) | Quoted(text: string) | DoubleQuoted(text: string) | Slashed(text: string) {
    function Show(): string {
      match this
      case Bare(_) => text
      case Quoted(_) => ShellQuote(text)
      case DoubleQuoted(_) => "\"" + text + "\""
      case Slashed(_) => Backslashed(text)
    }

    /** A backslash says nothing between quotes of either kind. */
    function Read(): string {
      if Quoted? || DoubleQuoted? then Unfold(text) else text
    }

    predicate Fine() {
      && (Bare? ==> Plain(text)) && (DoubleQuoted? ==> '"' !in text)
      && (Slashed? ==> forall c :: c in text ==> c !in {'\\', '\r', '\n'})
    }
  }

  /** The words, one space between neighbours. */
  function Line(ws: seq<Word>): string {
    if ws == [] then "" else if |ws| == 1 then ws[0].Show() else ws[0].Show() + (" " + Line(ws[1..]))
  }

  /** What a reader sees: empty words vanish. */
  function ReadBack(ws: seq<Word>): seq<string> {
    if ws == [] then []
    else (if ws[0].Read() == [] then [] else [ws[0].Read()]) + ReadBack(ws[1..])
  }

  lemma LexWord(w: Word, rest: string, l: Lexer)
    requires w.Fine() && l.quote.None?
    ensures Lex(Unfold(w.Show() + rest), l) == Lex(Unfold(rest), l.(cur := l.cur + w.Read()))
  {
    match w
    case Bare(text) =>
      UnfoldPlain(text, rest);
      LexPlain(text, Unfold(rest), l);
    case Quoted(text) =>
      UnfoldQuoted(text, rest);
      LexQuoted(Unfold(text), Unfold(rest), l);
    case DoubleQuoted(text) =>
      LexDouble(text, rest, l);
    case Slashed(text) =>
      LexSlashed(text, rest, l);
  }

  lemma LexGap(rest: string, l: Lexer)
    requires l.quote.None?
    ensures Lex(Unfold(" " + rest), l) == Lex(Unfold(rest), l.Flush())
  {
    UnfoldChar(' ', rest);
    var s := " " + Unfold(rest);
    assert s[0] == ' ' && s[1..] == Unfold(rest);
  }

  lemma LexLast(w: Word, l: Lexer)
    requires w.Fine() && l.quote.None?
    ensures Lex(Unfold(w.Show()), l) == Success(l.(cur := l.cur + w.Read()).Flush().out)
  {
    LexWord(w, "", l);
    assert w.Show() + "" == w.Show();
  }

  lemma {:induction false} LexLine(ws: seq<Word>, out: seq<string>)
    requires forall w :: w in ws ==> w.Fine()
    ensures Lex(Unfold(Line(ws)), Lexer(out, [], None)) == Success(out + ReadBack(ws))
    decreases |ws|
  {
    var l := Lexer(out, [], None);
    if ws == [] {
      assert out + ReadBack(ws) == out;
    } else {
      var w, tail := ws[0], ws[1..];
      ReadOne(ws, out);
      hide Lex, Unfold, ReadBack;
      var after := l.(cur := w.Read());
      assert [] + w.Read() == w.Read();
      if tail == [] {
        LexLast(w, l);
      } else {
        LexWord(w, " " + Line(tail), l);
        LexGap(Line(tail), after);
        LexLine(tail, after.Flush().out);
      }
    }
  }

  lemma ReadOne(ws: seq<Word>, out: seq<string>)
    requires ws != []
    ensures Lexer(out, ws[0].Read(), None).Flush().out + ReadBack(ws[1..]) == out + ReadBack(ws)
    ensures |ws| == 1 ==> Lexer(out, ws[0].Read(), None).Flush().out == out + ReadBack(ws)
  {
    hide Unfold;
    var word := if ws[0].Read() == [] then [] else [ws[0].Read()];
    assert Lexer(out, ws[0].Read(), None).Flush().out == out + word;
    Regroup(out, word, ReadBack(ws[1..]), out + word);
  }

  /** Reading a printed line gives back its words, unfolded, without the empty ones. */
  lemma PrintedLineReadsBack(ws: seq<Word>)
    requires forall w :: w in ws ==> w.Fine()
    ensures Tokens(Line(ws)) == Success(ReadBack(ws))
  {
    LexLine(ws, []);
    assert [] + ReadBack(ws) == ReadBack(ws);
  }

  /** A word after a tab is a word after a space, and a quote of either kind has to be closed. */
  lemma TabsAndOpenQuotes(w: Word, rest: string, q: char)
    requires w.Fine() && q in {'\'', '"'} && q !in rest
    ensures Tokens(w.Show() + ("\t" + rest)) == Tokens(w.Show() + (" " + rest))
    ensures Tokens(w.Show() + (" " + ([q] + rest))) == Failure(UnterminatedQuote)
  {
    var l := START.(cur := w.Read());
    assert START.cur + w.Read() == w.Read();
    LexWord(w, "\t" + rest, START);
    LexWord(w, " " + rest, START);
    LexTab(rest, l);
    LexWord(w, " " + ([q] + rest), START);
    LexGap([q] + rest, l);
    UnfoldChar(q, rest);
    ReplaceKeeps(rest, CRLF_CONTINUATION, " ", q);
    ReplaceKeeps(ReplaceAll(rest, CRLF_CONTINUATION, " "), LF_CONTINUATION, " ", q);
    var s := [q] + Unfold(rest);
    assert s[0] == q && s[1..] == Unfold(rest);
    LexUnclosed(Unfold(rest), l.Flush().(quote := Some(q)));
  }

  function QuotedWords(ts: seq<string>): seq<Word> {
    seq(|ts|, i requires 0 <= i < |ts| => Quoted(ts[i]))
  }

  function QuotedLine(ts: seq<string>): string {
    Line(QuotedWords(ts))
  }

  predicate Survives(t: string) {
    t != [] && NoContinuation(t)
  }

  lemma {:induction false} ReadBackQuoted(ts: seq<string>)
    ensures |ReadBack(QuotedWords(ts))| <= |ts|
    ensures ReadBack(QuotedWords(ts)) == ts <==> forall t :: t in ts ==> Survives(t)
  {
    if ts != [] {
      var ws := QuotedWords(ts);
      assert ws[1..] == QuotedWords(ts[1..]) && ws[0].Read() == Unfold(ts[0]);
      UnfoldFixed(ts[0]);
      ReadBackQuoted(ts[1..]);
      assert ts == [ts[0]] + ts[1..];
      var back := ReadBack(ws);
      if Survives(ts[0]) {
        assert back == [ts[0]] + ReadBack(ws[1..]);
        assert back == ts <==> back[1..] == ts[1..];
      } else {
        assert ts[0] in ts;
        assert |back| == |ts| ==> back[0] == Unfold(ts[0]);
        assert back != ts;
      }
    }
  }

  /**
   * The tokenizer undoes `shellQuote`: the quoted, space-joined list reads back as itself exactly
   * when every token is non-empty and free of backslash-newline.
   */
  lemma QuoteThenTokenize(ts: seq<string>)
    ensures Tokens(QuotedLine(ts)) == Success(ts) <==> forall t :: t in ts ==> Survives(t)
  {
    PrintedLineReadsBack(QuotedWords(ts));
    ReadBackQuoted(ts);
  }
}
