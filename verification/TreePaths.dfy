/** Materialised paths: an identifier list written as decimal numbers, each closed by '/'. */
module TreePaths {
  import Decimal

  function Segment(id: nat): string {
    Decimal.Print(id) + "/"
  }

  function Render(ids: seq<nat>): string {
    if ids == [] then "" else Segment(ids[0]) + Render(ids[1..])
  }

  lemma {:induction false} RenderAppend(ids: seq<nat>, id: nat)
    ensures Render(ids + [id]) == Render(ids) + Segment(id)
  {
    if ids == [] {
      assert ids + [id] == [id];
      assert Render([]) == "";
    } else {
      RenderAppend(ids[1..], id);
      assert (ids + [id])[1..] == ids[1..] + [id];
    }
  }

  /** The terminator makes the first segment of a string unambiguous. */
  lemma SegmentPrefix(x: nat, rest: string, y: nat, rest': string)
    requires Segment(x) + rest <= Segment(y) + rest'
    ensures x == y && rest <= rest'
  {
    var dx, dy := Decimal.Print(x), Decimal.Print(y);
    var s, t := Segment(x) + rest, Segment(y) + rest';
    Decimal.PrintOnlyDigits(x);
    Decimal.PrintOnlyDigits(y);
    assert s[|dx|] == '/' && t[|dy|] == '/';
    assert forall k :: 0 <= k < |dy| ==> t[k] == dy[k] && dy[k] in dy;
    assert forall k :: 0 <= k < |dx| ==> s[k] == dx[k] && dx[k] in dx;
    assert forall k :: 0 <= k < |s| ==> s[k] == t[k];
    assert dx == s[..|dx|] == t[..|dx|] == dy;
    Decimal.PrintInjective(x, y);
    assert rest == s[|dx| + 1..] && rest' == t[|dx| + 1..];
  }

  /** String prefix of rendered paths is list prefix of identifiers. */
  lemma {:induction false} RenderPrefix(xs: seq<nat>, ys: seq<nat>)
    ensures Render(xs) <= Render(ys) <==> xs <= ys
  {
    if xs == [] {
    } else if ys == [] {
    } else {
      RenderPrefix(xs[1..], ys[1..]);
      if Render(xs) <= Render(ys) {
        SegmentPrefix(xs[0], Render(xs[1..]), ys[0], Render(ys[1..]));
        assert xs == [xs[0]] + xs[1..] && ys == [ys[0]] + ys[1..];
      }
      if xs <= ys {
        assert xs[1..] <= ys[1..];
      }
    }
  }

  lemma {:induction false} RenderHasNoWildcard(ids: seq<nat>)
    ensures '%' !in Render(ids) && '_' !in Render(ids)
  {
    if ids != [] {
      Decimal.PrintOnlyDigits(ids[0]);
      RenderHasNoWildcard(ids[1..]);
    }
  }

  /** SQL LIKE: '%' stands for any run of characters, '_' for any one character. */
  predicate Like(text: string, pattern: string)
    decreases |pattern|, |text|
  {
    if pattern == [] then text == []
    else if pattern[0] == '%' then Like(text, pattern[1..]) || (text != [] && Like(text[1..], pattern))
    else text != [] && (pattern[0] == '_' || pattern[0] == text[0]) && Like(text[1..], pattern[1..])
  }

  lemma {:induction false} LikeEverything(text: string)
    ensures Like(text, "%")
  {
    if text == [] {
      assert Like(text, "%"[1..]);
    } else {
      LikeEverything(text[1..]);
    }
  }

  /** `LIKE p || '%'` is the prefix test when p holds no wildcard. */
  lemma {:induction false} LikeIsPrefix(text: string, p: string)
    requires '%' !in p && '_' !in p
    ensures Like(text, p + "%") <==> p <= text
  {
    if p == [] {
      assert p + "%" == "%";
      LikeEverything(text);
    } else {
      assert (p + "%")[0] == p[0] && (p + "%")[1..] == p[1..] + "%";
      assert p[0] in p;
      if text != [] {
        LikeIsPrefix(text[1..], p[1..]);
        if p[0] == text[0] && p[1..] <= text[1..] {
          assert p == [p[0]] + p[1..] && text == [text[0]] + text[1..];
        }
      }
    }
  }
}
