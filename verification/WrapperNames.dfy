/** How a display name is spelled as an alias: its words run together, each with a capital. */
module WrapperNames {
  import opened Prelude
  import opened Text
  import opened Wrappers

  /** `c` is `w` with its first letter raised and every other letter lowered. */
  predicate Capitalised(w: string, c: string) {
    && |c| == |w| > 0
    && c[0] == Raised(w[0]) && forall i :: 1 <= i < |w| ==> c[i] == Lowered(w[i])
  }

  predicate Digits(s: string) {
    forall c :: c in s ==> '0' <= c <= '9'
  }

  predicate Letter(c: char) {
    'A' <= c <= 'Z' || 'a' <= c <= 'z'
  }

  /** A character that separates words and is no part of an identifier. */
  predicate Separates(c: char) {
    !Letter(c) && !('0' <= c <= '9') && c != '_'
  }

  /** A part of a name: digits, which are dropped, and a word of letters and digits after them. */
  predicate Part(f: string, digits: string, w: string) {
    f == digits + w && Digits(digits) && w != "" && Letter(w[0]) && forall c :: c in w ==> Letter(c) || '0' <= c <= '9'
  }

  /** Names split at one kind of separator. */
  predicate Parts(fs: seq<string>, ds: seq<string>, ws: seq<string>) {
    |fs| == |ds| == |ws| && forall i :: 0 <= i < |fs| ==> Part(fs[i], ds[i], ws[i])
  }

  lemma {:induction false} DigitsDropped(digits: string, w: string)
    requires Digits(digits) && w != "" && IsLetter(w[0])
    ensures DropDigits(digits + w) == w
  {
    if digits == "" {
      assert digits + w == w;
    } else {
      assert digits[0] in digits && forall c :: c in digits[1..] ==> c in digits;
      assert (digits + w)[0] == digits[0] && (digits + w)[1..] == digits[1..] + w;
      DigitsDropped(digits[1..], w);
    }
  }

  /** The character raised, and lowered, in its code. */
  function Raised(c: char): char {
    if 'a' <= c <= 'z' then (c as int - 32) as char else c
  }

  function Lowered(c: char): char {
    if 'A' <= c <= 'Z' then (c as int + 32) as char else c
  }

  lemma CasesByCode(c: char)
    ensures UpperChar(c) == Raised(c) && LowerChar(c) == Lowered(c)
    ensures IsLetter(c) ==> 'A' <= Raised(c) <= 'Z'
  {
  }

  lemma WordIs(f: string, digits: string, w: string)
    requires Part(f, digits, w)
    ensures Word(f) == [UpperChar(w[0])] + ToLower(w[1..])
  {
    hide ToLower, UpperChar;
    DigitsDropped(digits, w);
  }

  lemma WordCapitalised(f: string, digits: string, w: string)
    requires Part(f, digits, w)
    ensures Capitalised(w, Word(f)) && 'A' <= Word(f)[0] <= 'Z'
  {
    WordIs(f, digits, w);
    CasesByCode(w[0]);
    hide Word, ToLower, LowerChar, UpperChar, Raised, Lowered;
    var c := Word(f);
    forall i | 1 <= i < |w| ensures c[i] == Lowered(w[i]) {
      CasesByCode(w[i]);
      assert c[i] == ToLower(w[1..])[i - 1] && w[1..][i - 1] == w[i];
    }
  }

  lemma {:induction false} FieldTaken(f: string, rest: string, current: string)
    requires Alnum(f)
    ensures Fields(f + rest, current) == Fields(rest, current + f)
  {
    if f == "" {
      assert f + rest == rest && current + f == current;
    } else {
      assert f == [f[0]] + f[1..] && f[0] in f;
      assert (f + rest)[0] == f[0] && (f + rest)[1..] == f[1..] + rest;
      FieldTaken(f[1..], rest, current + [f[0]]);
      assert current + [f[0]] + f[1..] == current + f;
    }
  }

  lemma {:induction false} FieldsOfJoin(fs: seq<string>, sep: char)
    requires fs != [] && !IsAlnum(sep) && forall i :: 0 <= i < |fs| ==> fs[i] != "" && Alnum(fs[i])
    ensures Fields(Join(fs, [sep]), "") == fs
  {
    var f := fs[0];
    assert "" + f == f;
    if |fs| == 1 {
      FieldTaken(f, "", "");
      assert f + "" == f;
    } else {
      var rest := Join(fs[1..], [sep]);
      assert Join(fs, [sep]) == f + ([sep] + rest);
      FieldTaken(f, [sep] + rest, "");
      assert ([sep] + rest)[0] == sep && ([sep] + rest)[1..] == rest;
      FieldsOfJoin(fs[1..], sep);
    }
  }

  lemma {:induction false} CamelOfParts(fs: seq<string>, ds: seq<string>, ws: seq<string>) returns (cs: seq<string>)
    requires Parts(fs, ds, ws)
    ensures |cs| == |ws| && Camel(fs) == Join(cs, "")
    ensures forall i :: 0 <= i < |ws| ==> Capitalised(ws[i], cs[i]) && 'A' <= cs[i][0] <= 'Z'
  {
    if fs == [] {
      cs := [];
    } else {
      WordCapitalised(fs[0], ds[0], ws[0]);
      var rest := CamelOfParts(fs[1..], ds[1..], ws[1..]);
      cs := [Word(fs[0])] + rest;
      assert cs[1..] == rest;
      assert Word(fs[0]) + "" == Word(fs[0]);
      assert |cs| > 1 ==> Join(cs, "") == Word(fs[0]) + "" + Join(rest, "");
    }
  }

  // ---- Keywords have no capital but the first letter ----

  predicate LowerBehind(k: string) {
    forall i :: 1 <= i < |k| ==> !('A' <= k[i] <= 'Z')
  }

  lemma OperatorsLower(k: string)
    requires k in CONSTANTS_AND_OPERATORS
    ensures LowerBehind(k)
  {
  }

  lemma CompoundsLower(k: string)
    requires k in COMPOUND_STATEMENTS
    ensures LowerBehind(k)
  {
  }

  lemma SimplesLower(k: string)
    requires k in SIMPLE_STATEMENTS
    ensures LowerBehind(k)
  {
  }

  lemma KeywordsLower(k: string)
    requires k in KEYWORDS
    ensures LowerBehind(k)
  {
    hide CONSTANTS_AND_OPERATORS, COMPOUND_STATEMENTS, SIMPLE_STATEMENTS;
    if k in CONSTANTS_AND_OPERATORS {
      OperatorsLower(k);
    } else if k in COMPOUND_STATEMENTS {
      CompoundsLower(k);
    } else {
      SimplesLower(k);
    }
  }

  lemma {:induction false} JoinEnds(fs: seq<string>, sep: char)
    requires fs != [] && forall i :: 0 <= i < |fs| ==> fs[i] != ""
    ensures var s := Join(fs, [sep]); s != "" && s[0] == fs[0][0] && s[|s| - 1] == fs[|fs| - 1][|fs[|fs| - 1]| - 1]
    ensures |fs| > 1 ==> sep in Join(fs, [sep])
  {
    if |fs| > 1 {
      JoinEnds(fs[1..], sep);
      assert Join(fs, [sep]) == fs[0] + ([sep] + Join(fs[1..], [sep]));
      assert Join(fs, [sep])[|fs[0]|] == sep;
    }
  }

  /** A name of several words is not an identifier as it stands, and is not trimmed. */
  lemma NameTaken(fs: seq<string>, sep: char)
    requires |fs| > 1 && !IsAlnum(sep) && sep != '_' && forall i :: 0 <= i < |fs| ==> fs[i] != "" && Alnum(fs[i])
    ensures TrimSpace(Join(fs, [sep])) == Join(fs, [sep]) && !IsIdent(Join(fs, [sep]))
  {
    hide KEYWORDS, IsIdent, IsSpace, Join, TrimSpace, IsAlnum;
    var s := Join(fs, [sep]);
    JoinEnds(fs, sep);
    var first, last := fs[0], fs[|fs| - 1];
    assert first[0] in first && last[|last| - 1] in last;
    WordsAreNoSpace(s[0]);
    WordsAreNoSpace(s[|s| - 1]);
    TrimIsTrimmed(s);
    NotIdent(s, sep);
  }

  lemma WordsAreNoSpace(c: char)
    ensures IsAlnum(c) ==> !IsSpace(c)
  {
  }

  lemma NotIdent(s: string, sep: char)
    requires sep in s && !IsAlnum(sep) && sep != '_'
    ensures !IsIdent(s)
  {
    hide KEYWORDS;
  }

  /**
   * A name of several words, whatever non-word character separates them, has them as its alias: one after
   * the other, each with a capital and otherwise small, leading digits dropped.
   */
  lemma WordsRunTogether(fs: seq<string>, ds: seq<string>, ws: seq<string>, sep: char) returns (cs: seq<string>)
    requires |fs| > 1 && Parts(fs, ds, ws) && Separates(sep)
    ensures |cs| == |ws| && forall i :: 0 <= i < |ws| ==> Capitalised(ws[i], cs[i])
    ensures ReadableAlias(Join(fs, [sep])) == Join(cs, "")
  {
    var name := Join(fs, [sep]);
    forall i | 0 <= i < |fs| ensures fs[i] != "" && Alnum(fs[i]) {
      assert Part(fs[i], ds[i], ws[i]);
    }
    assert forall f :: f in fs ==> Alnum(f);
    NameTaken(fs, sep);
    FieldsOfJoin(fs, sep);
    cs := CamelOfParts(fs, ds, ws);
    var alias := Camel(fs);
    CamelShape(fs);
    SecondCapital(cs);
    if alias in KEYWORDS {
      KeywordsLower(alias);
      assert false;
    }
    hide KEYWORDS, Camel, Fields, Join, TrimSpace;
  }

  /** A single word with a separator behind it, likewise; a reserved word is told apart by `_api`. */
  lemma OneWord(f: string, digits: string, w: string, sep: char) returns (c: string)
    requires Part(f, digits, w) && Separates(sep) && !IsSpace(sep)
    ensures Capitalised(w, c)
    ensures ReadableAlias(f + [sep]) == if c in KEYWORDS then c + "_api" else c
  {
    hide KEYWORDS, Camel, Fields, TrimSpace, Word, IsIdent, IsSpace;
    c := Word(f);
    WordCapitalised(f, digits, w);
    PartIsAlnum(f, digits, w);
    OneField(f, sep);
    OneCamel(f);
    NotIdent(f + [sep], sep);
    KeptWhole(f, sep);
    WordIsIdent(f, digits, w);
  }

  lemma PartIsAlnum(f: string, digits: string, w: string)
    requires Part(f, digits, w)
    ensures f != "" && Alnum(f)
  {
    forall c | c in f ensures IsAlnum(c) {
      assert c in digits || c in w;
    }
  }

  lemma KeptWhole(f: string, sep: char)
    requires f != "" && Alnum(f) && !IsSpace(sep)
    ensures TrimSpace(f + [sep]) == f + [sep]
  {
    assert f[0] in f;
    WordsAreNoSpace(f[0]);
    hide TrimSpace, IsSpace, Alnum;
    TrimIsTrimmed(f + [sep]);
  }

  lemma OneField(f: string, sep: char)
    requires f != "" && Alnum(f) && !IsAlnum(sep)
    ensures Fields(f + [sep], "") == [f]
  {
    FieldTaken(f, [sep], "");
    assert "" + f == f && [sep][1..] == "";
  }

  lemma OneCamel(f: string)
    ensures Camel([f]) == Word(f)
  {
    assert [f][1..] == [] && Word(f) + "" == Word(f);
  }

  /** The word, with `_api` behind it when it is reserved, is an identifier and starts with no digit. */
  lemma WordIsIdent(f: string, digits: string, w: string)
    requires Part(f, digits, w)
    ensures var c := Word(f);
            && c != "" && !('0' <= c[0] <= '9') && IsIdent(if c in KEYWORDS then c + "_api" else c)
  {
    hide KEYWORDS, Word;
    WordCapitalised(f, digits, w);
    PartIsAlnum(f, digits, w);
    assert forall g :: g in [f] ==> Alnum(g);
    CamelShape([f]);
    OneCamel(f);
    hide Part, Capitalised;
    var c := Word(f);
    NotKeyword(c + "_api");
    assert forall i :: 0 <= i < |c| ==> c[i] in c;
  }

  lemma SecondCapital(cs: seq<string>)
    requires |cs| > 1 && forall i :: 0 <= i < |cs| ==> cs[i] != "" && 'A' <= cs[i][0] <= 'Z'
    ensures !LowerBehind(Join(cs, "")) && Join(cs, "") != "" && 'A' <= Join(cs, "")[0] <= 'Z'
  {
    var rest := Join(cs[1..], "");
    assert Join(cs, "") == cs[0] + "" + rest;
    assert rest != "" && rest[0] == cs[1][0] by {
      assert cs[1..][0] == cs[1];
    }
    assert Join(cs, "")[|cs[0]|] == rest[0];
  }

  /** The 35 words Python reserves, none of which can be an alias. */
  lemma ReservedWords()
    ensures |KEYWORDS| == 35 && forall k :: k in KEYWORDS ==> !IsIdent(k)
    ensures "False" in KEYWORDS && "None" in KEYWORDS && "True" in KEYWORDS && "and" in KEYWORDS && "in" in KEYWORDS
    ensures "is" in KEYWORDS && "lambda" in KEYWORDS && "not" in KEYWORDS && "or" in KEYWORDS && "class" in KEYWORDS
  {
    assert KEYWORDS[0] == "False" && KEYWORDS[1] == "None" && KEYWORDS[2] == "True" && KEYWORDS[3] == "and";
    assert KEYWORDS[4] == "in" && KEYWORDS[5] == "is" && KEYWORDS[6] == "lambda" && KEYWORDS[7] == "not" && KEYWORDS[8] == "or";
    assert KEYWORDS[11] == "class";
  }
}
