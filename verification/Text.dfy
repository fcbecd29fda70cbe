/** The Go `strings` functions the modelled code calls, on sequences of characters. */
module Text {

  /** `strings.ReplaceAll` for a non-empty pattern: leftmost, non-overlapping. */
  function ReplaceAll(s: string, pat: string, rep: string): string
    requires pat != []
  {
    if |s| < |pat| then s
    else if pat <= s then rep + ReplaceAll(s[|pat|..], pat, rep)
    else [s[0]] + ReplaceAll(s[1..], pat, rep)
  }

  predicate Contains(s: string, pat: string) {
    pat <= s || (s != [] && Contains(s[1..], pat))
  }

  /** Unicode White_Space, the set `strings.TrimSpace` strips. */
  predicate IsSpace(c: char) {
    || '\t' <= c <= '\r' || c == ' ' || c as int in {0x85, 0xA0, 0x1680, 0x2028, 0x2029, 0x202F, 0x205F, 0x3000}
    || 0x2000 <= c as int <= 0x200A
  }

  function TrimLeft(s: string): (t: string)
    ensures |t| <= |s|
  {
    if s != [] && IsSpace(s[0]) then TrimLeft(s[1..]) else s
  }

  function TrimRight(s: string): (t: string)
    ensures t <= s
  {
    if s != [] && IsSpace(s[|s| - 1]) then TrimRight(s[..|s| - 1]) else s
  }

  function TrimSpace(s: string): (t: string)
    ensures |t| <= |s|
  {
    TrimRight(TrimLeft(s))
  }

  predicate Trimmed(s: string) {
    s == [] || (!IsSpace(s[0]) && !IsSpace(s[|s| - 1]))
  }

  function Join(parts: seq<string>, sep: string): string {
    if parts == [] then "" else if |parts| == 1 then parts[0] else parts[0] + sep + Join(parts[1..], sep)
  }

  function UpperChar(c: char): char {
    if 'a' <= c <= 'z' then c - 'a' + 'A' else c
  }

  /** `strings.ToUpper` on ASCII; other characters are left alone. */
  function ToUpper(s: string): (t: string)
    ensures |t| == |s| && forall i :: 0 <= i < |s| ==> t[i] == UpperChar(s[i])
  {
    if s == [] then [] else [UpperChar(s[0])] + ToUpper(s[1..])
  }

  function LowerChar(c: char): char {
    if 'A' <= c <= 'Z' then c - 'A' + 'a' else c
  }

  /** `strings.ToLower` on ASCII. */
  function ToLower(s: string): (t: string)
    ensures |t| == |s| && forall i :: 0 <= i < |s| ==> t[i] == LowerChar(s[i])
  {
    seq(|s|, i requires 0 <= i < |s| => LowerChar(s[i]))
  }

  // ---- Laws ----

  lemma {:induction false} ReplaceShrinks(s: string, pat: string, rep: string)
    requires pat != [] && |rep| < |pat|
    ensures |ReplaceAll(s, pat, rep)| <= |s|
    ensures |ReplaceAll(s, pat, rep)| == |s| <==> !Contains(s, pat)
    ensures !Contains(s, pat) ==> ReplaceAll(s, pat, rep) == s
  {
    if |s| < |pat| {
      TooShort(s, pat);
    } else if pat <= s {
      ReplaceShrinks(s[|pat|..], pat, rep);
    } else {
      ReplaceShrinks(s[1..], pat, rep);
    }
  }

  lemma {:induction false} TooShort(s: string, pat: string)
    requires |s| < |pat|
    ensures !Contains(s, pat)
  {
    if s != [] {
      TooShort(s[1..], pat);
    }
  }

  lemma ReplaceSkip(c: char, s: string, pat: string, rep: string)
    requires pat != [] && !(pat <= [c] + s)
    ensures ReplaceAll([c] + s, pat, rep) == [c] + ReplaceAll(s, pat, rep)
  {
    assert ([c] + s)[1..] == s;
  }

  lemma ReplaceHit(s: string, pat: string, rep: string)
    requires pat != []
    ensures ReplaceAll(pat + s, pat, rep) == rep + ReplaceAll(s, pat, rep)
  {
    assert (pat + s)[|pat|..] == s;
  }

  lemma ReplaceSkipForeign(c: char, s: string, pat: string, rep: string)
    requires pat != [] && c !in pat
    ensures ReplaceAll([c] + s, pat, rep) == [c] + ReplaceAll(s, pat, rep)
  {
    assert pat[0] in pat && ([c] + s)[0] == c;
    ReplaceSkip(c, s, pat, rep);
  }

  /** A character foreign to the pattern splits the work. */
  lemma {:induction false} ReplaceSplit(a: string, b: string, pat: string, rep: string)
    requires pat != [] && b != [] && b[0] !in pat
    ensures ReplaceAll(a + b, pat, rep) == ReplaceAll(a, pat, rep) + ReplaceAll(b, pat, rep)
  {
    NoMatchAcross(a, b, pat);
    if a == [] {
      assert a + b == b;
    } else if pat <= a {
      var rest := a[|pat|..];
      ReplaceSplit(rest, b, pat, rep);
      Regroup(pat, rest, b, a);
      ReplaceHit(rest, pat, rep);
      ReplaceHit(rest + b, pat, rep);
      Regroup(rep, ReplaceAll(rest, pat, rep), ReplaceAll(b, pat, rep), ReplaceAll(a, pat, rep));
    } else {
      var head, rest := [a[0]], a[1..];
      ReplaceSplit(rest, b, pat, rep);
      Regroup(head, rest, b, a);
      ReplaceSkip(a[0], rest, pat, rep);
      ReplaceSkip(a[0], rest + b, pat, rep);
      Regroup(head, ReplaceAll(rest, pat, rep), ReplaceAll(b, pat, rep), ReplaceAll(a, pat, rep));
    }
  }

  lemma Regroup<T>(x: seq<T>, y: seq<T>, z: seq<T>, xy: seq<T>)
    requires xy == x + y
    ensures xy + z == x + (y + z)
  {
  }

  /** A match cannot reach over a character foreign to the pattern. */
  lemma NoMatchAcross(a: string, b: string, pat: string)
    requires b != [] && b[0] !in pat
    ensures pat <= a + b <==> pat <= a
  {
    assert (a + b)[|a|] == b[0];
    if |pat| > |a| {
      assert pat[|a|] in pat;
    }
  }

  lemma {:induction false} ReplaceKeeps(s: string, pat: string, rep: string, c: char)
    requires pat != [] && c !in pat
    ensures c in s ==> c in ReplaceAll(s, pat, rep)
    ensures c in ReplaceAll(s, pat, rep) ==> c in s || c in rep
  {
    if |s| < |pat| {
    } else if pat <= s {
      assert s == pat + s[|pat|..];
      ReplaceKeeps(s[|pat|..], pat, rep, c);
    } else {
      assert s == [s[0]] + s[1..];
      ReplaceKeeps(s[1..], pat, rep, c);
    }
  }

  lemma {:induction false} TrimLeftKept(s: string)
    ensures TrimLeft(s) == [] || !IsSpace(TrimLeft(s)[0])
    ensures TrimLeft(s) != [] ==> TrimLeft(s)[|TrimLeft(s)| - 1] == s[|s| - 1]
    ensures |TrimLeft(s)| == |s| ==> TrimLeft(s) == s
    ensures forall c :: c in TrimLeft(s) ==> c in s
  {
    if s != [] && IsSpace(s[0]) {
      TrimLeftKept(s[1..]);
    }
  }

  lemma {:induction false} TrimRightKept(s: string)
    ensures TrimRight(s) == [] || !IsSpace(TrimRight(s)[|TrimRight(s)| - 1])
    ensures |TrimRight(s)| == |s| ==> TrimRight(s) == s
  {
    if s != [] && IsSpace(s[|s| - 1]) {
      TrimRightKept(s[..|s| - 1]);
    }
  }

  /** Trimming yields a trimmed piece of the text, and changes nothing exactly when it is trimmed. */
  lemma TrimIsTrimmed(s: string)
    ensures Trimmed(TrimSpace(s))
    ensures TrimSpace(s) == s <==> Trimmed(s)
    ensures |TrimSpace(s)| == |s| ==> TrimSpace(s) == s
    ensures forall c :: c in TrimSpace(s) ==> c in s
  {
    TrimLeftKept(s);
    TrimRightKept(TrimLeft(s));
  }

  lemma {:induction false} TrimmedAwayLeft(s: string)
    ensures TrimLeft(s) == [] <==> forall c :: c in s ==> IsSpace(c)
  {
    if s != [] {
      assert s == [s[0]] + s[1..];
      TrimmedAwayLeft(s[1..]);
    }
  }

  /** Nothing is left exactly when there was nothing but space. */
  lemma TrimmedAway(s: string)
    ensures TrimSpace(s) == "" <==> !exists c :: c in s && !IsSpace(c)
  {
    TrimmedAwayLeft(s);
    TrimLeftKept(s);
    var t := TrimLeft(s);
    if t != [] {
      KeepsFirst(t);
    }
  }

  lemma {:induction false} KeepsFirst(t: string)
    requires t != [] && !IsSpace(t[0])
    ensures TrimRight(t) != []
  {
    if |t| > 1 && IsSpace(t[|t| - 1]) {
      KeepsFirst(t[..|t| - 1]);
    }
  }

  lemma TrimDropsLeadingSpace(s: string)
    ensures TrimSpace(" " + s) == TrimSpace(s)
  {
    assert (" " + s)[1..] == s;
  }

  predicate StandsAt(s: string, pat: string, i: int) {
    0 <= i <= |s| - |pat| && s[i..i + |pat|] == pat
  }

  /** The pattern stands somewhere in the text. */
  lemma {:induction false} ContainsExactly(s: string, pat: string)
    ensures Contains(s, pat) <==> exists i :: StandsAt(s, pat, i)
  {
    if pat <= s {
      assert StandsAt(s, pat, 0);
    } else if s != [] {
      ContainsExactly(s[1..], pat);
      if i :| StandsAt(s[1..], pat, i) {
        assert s[i + 1..i + 1 + |pat|] == pat;
        assert StandsAt(s, pat, i + 1);
      }
      if i :| StandsAt(s, pat, i) {
        assert i > 0 && s[1..][i - 1..i - 1 + |pat|] == pat;
        assert StandsAt(s[1..], pat, i - 1);
      }
    }
  }

  /** The 26 letters change case, and back; nothing else changes. */
  lemma CaseMapped(c: char)
    ensures 'a' <= c <= 'z' ==> 'A' <= UpperChar(c) <= 'Z' && LowerChar(UpperChar(c)) == c
    ensures 'A' <= c <= 'Z' ==> 'a' <= LowerChar(c) <= 'z' && UpperChar(LowerChar(c)) == c
    ensures !('a' <= c <= 'z') ==> UpperChar(c) == c
    ensures !('A' <= c <= 'Z') ==> LowerChar(c) == c
    ensures UpperChar('a') == 'A' && UpperChar('z') == 'Z'
  {
  }

  /** The 25 code points of the Unicode property White_Space. */
  lemma WhiteSpace(c: char)
    ensures IsSpace(c) <==>
            c as int in {9, 10, 11, 12, 13, 32, 133, 160, 0x1680, 0x2000, 0x2001, 0x2002, 0x2003, 0x2004, 0x2005, 0x2006, 0x2007,
                         0x2008, 0x2009, 0x200A, 0x2028, 0x2029, 0x202F, 0x205F, 0x3000}
  {
  }
}
