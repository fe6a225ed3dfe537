/** Compiling a search term into a SQL LIKE pattern with backslash escapes. */
module SearchPattern {

  // ---- LIKE ----

  /** SQLite's LIKE ignores the case of ASCII letters. */
  function Lower(c: char): char {
    if 'A' <= c <= 'Z' then (c as int + 32) as char else c
  }

  predicate Same(a: char, b: char) {
    Lower(a) == Lower(b)
  }

  /** `text LIKE pattern ESCAPE '\'`. */
  predicate Like(p: string, s: string)
    decreases |p|
  {
    if p == [] then s == []
    else if p[0] == '%' then exists k :: 0 <= k <= |s| && Like(p[1..], s[k..])
    else if p[0] == '_' then s != [] && Like(p[1..], s[1..])
    else if p[0] == '\\' then |p| >= 2 && s != [] && Same(p[1], s[0]) && Like(p[2..], s[1..])
    else s != [] && Same(p[0], s[0]) && Like(p[1..], s[1..])
  }

  // ---- the compiler ----

  predicate IsWhite(c: char) {
    || '\t' <= c <= '\r' || c == ' ' || c == '\U{85}' || c == '\U{a0}' || c == '\U{1680}'
    || '\U{2000}' <= c <= '\U{200a}' || c == '\U{2028}' || c == '\U{2029}' || c == '\U{202f}'
    || c == '\U{205f}' || c == '\U{3000}'
  }

  function TrimStart(s: string): string {
    if s != [] && IsWhite(s[0]) then TrimStart(s[1..]) else s
  }

  function TrimEnd(s: string): string {
    if s != [] && IsWhite(s[|s| - 1]) then TrimEnd(s[..|s| - 1]) else s
  }

  const YEAR := '\U{5e74}'
  const MONTH := '\U{6708}'
  const DAY := '\U{65e5}'

  /** Date words and slashes become dashes; the day word disappears. */
  function Dashed(s: string): string {
    if s == [] then []
    else
      var c := s[0];
      (if c == YEAR || c == MONTH || c == '/' then "-" else if c == DAY then "" else [c]) + Dashed(s[1..])
  }

  function TrimDashes(s: string): string {
    if s != [] && s[|s| - 1] == '-' then TrimDashes(s[..|s| - 1]) else s
  }

  function Normalized(term: string): string {
    TrimDashes(Dashed(TrimEnd(TrimStart(term))))
  }

  predicate Special(c: char) {
    c == '%' || c == '_' || c == '\\'
  }

  function Escaped(s: string): string {
    if s == [] then [] else Escaped(s[..|s| - 1]) + (if Special(s[|s| - 1]) then ['\\', s[|s| - 1]] else [s[|s| - 1]])
  }

  function Compiled(term: string): string {
    "%" + (Escaped(Normalized(term)) + "%")
  }

  method SearchLikePattern(term: string) returns (pattern: string)
    ensures pattern == Compiled(term)
  {
    pattern := "%";
    var normalized := Normalized(term);
    assert normalized[..0] == [];
    for i := 0 to |normalized|
      invariant pattern == "%" + Escaped(normalized[..i])
    {
      assert normalized[..i + 1][..i] == normalized[..i];
      var ch := normalized[i];
      if ch == '%' || ch == '_' || ch == '\\' {
        pattern := pattern + ['\\', ch];
      } else {
        pattern := pattern + [ch];
      }
    }
    assert normalized[..|normalized|] == normalized;
    pattern := pattern + "%";
  }

  // ---- meaning ----

  predicate SameText(a: string, b: string) {
    |a| == |b| && forall i :: 0 <= i < |a| ==> Same(a[i], b[i])
  }

  predicate OccursAt(s: string, n: string, k: nat) {
    k + |n| <= |s| && SameText(n, s[k..k + |n|])
  }

  /** `n` is a contiguous part of `s`, up to the case of ASCII letters. */
  predicate Contains(s: string, n: string) {
    exists k :: 0 <= k <= |s| && OccursAt(s, n, k)
  }

  lemma {:induction false} EscapedCons(c: char, rest: string)
    ensures Escaped([c] + rest) == (if Special(c) then ['\\', c] else [c]) + Escaped(rest)
    decreases |rest|
  {
    var s := [c] + rest;
    if rest == [] {
      assert s[..0] == [] && s == [c];
    } else {
      var init := rest[..|rest| - 1];
      assert s[..|s| - 1] == [c] + init;
      EscapedCons(c, init);
    }
  }

  lemma LikeLiteral(c: char, p: string, s: string)
    ensures Like((if Special(c) then ['\\', c] else [c]) + p, s) <==> s != [] && Same(c, s[0]) && Like(p, s[1..])
  {
    var q := (if Special(c) then ['\\', c] else [c]) + p;
    if Special(c) {
      assert q[2..] == p;
    } else {
      assert q[1..] == p;
    }
  }

  lemma LikeAnything(s: string)
    ensures Like("%", s)
  {
    assert "%"[1..] == [] && s[|s|..] == [];
    assert Like("%"[1..], s[|s|..]);
  }

  /** An escaped term followed by a wildcard matches exactly the texts that start with the term. */
  lemma {:induction false} LikeStartsWith(n: string, s: string)
    ensures Like(Escaped(n) + "%", s) <==> |n| <= |s| && SameText(n, s[..|n|])
    decreases |n|
  {
    if n == [] {
      assert Escaped(n) + "%" == "%";
      LikeAnything(s);
    } else {
      var c, rest := n[0], n[1..];
      var front := if Special(c) then ['\\', c] else [c];
      assert n == [c] + rest;
      EscapedCons(c, rest);
      assert Escaped(n) + "%" == front + (Escaped(rest) + "%");
      LikeLiteral(c, Escaped(rest) + "%", s);
      if s != [] {
        LikeStartsWith(rest, s[1..]);
        assert |n| <= |s| ==> s[1..][..|rest|] == s[..|n|][1..];
        SameTextCons(n, s);
      }
    }
  }

  lemma SameTextCons(n: string, s: string)
    requires n != [] && s != []
    ensures |n| <= |s| ==> (SameText(n, s[..|n|]) <==> Same(n[0], s[0]) && SameText(n[1..], s[..|n|][1..]))
  {
    if |n| <= |s| {
      var t := s[..|n|];
      if Same(n[0], s[0]) && SameText(n[1..], t[1..]) {
        forall i | 0 <= i < |n|
          ensures Same(n[i], t[i])
        {
          assert i > 0 ==> n[i] == n[1..][i - 1] && t[i] == t[1..][i - 1];
        }
      }
    }
  }

  lemma LikeWildcard(p: string, s: string)
    ensures Like("%" + p, s) <==> exists k :: 0 <= k <= |s| && Like(p, s[k..])
  {
    assert ("%" + p)[1..] == p;
  }

  lemma LikeSuffix(n: string, s: string, k: nat)
    requires k <= |s|
    ensures Like(Escaped(n) + "%", s[k..]) <==> OccursAt(s, n, k)
  {
    LikeStartsWith(n, s[k..]);
    assert k + |n| <= |s| ==> s[k..][..|n|] == s[k..k + |n|];
  }

  /** The compiled pattern matches a text exactly when the normalised term occurs in it, special characters included. */
  lemma CompiledMeansContains(term: string, s: string)
    ensures Like(Compiled(term), s) <==> Contains(s, Normalized(term))
  {
    var n := Normalized(term);
    var p := Escaped(n) + "%";
    LikeWildcard(p, s);
    forall k | 0 <= k <= |s|
      ensures Like(p, s[k..]) <==> OccursAt(s, n, k)
    {
      LikeSuffix(n, s, k);
    }
    if k :| 0 <= k <= |s| && OccursAt(s, n, k) {
      assert Like(p, s[k..]);
    }
  }

  // ---- what normalising means ----

  predicate AllWhite(s: string) {
    forall i :: 0 <= i < |s| ==> IsWhite(s[i])
  }

  /** Characters that become a dash, a dash itself included. */
  predicate IsSeparator(c: char) {
    c == '年' || c == '月' || c == '/' || c == '-'
  }

  /** Characters that normalising leaves alone wherever they stand. */
  predicate IsPlain(c: char) {
    !IsWhite(c) && !IsSeparator(c) && c != '日'
  }

  predicate AllPlain(s: string) {
    forall i :: 0 <= i < |s| ==> IsPlain(s[i])
  }

  /** No date words and slashes. */
  predicate NoWords(s: string) {
    forall i :: 0 <= i < |s| ==> s[i] != '年' && s[i] != '月' && s[i] != '日' && s[i] != '/'
  }

  function Trim(s: string): string {
    TrimEnd(TrimStart(s))
  }

  lemma {:induction false} DashedAppends(a: string, b: string)
    ensures Dashed(a + b) == Dashed(a) + Dashed(b)
    decreases |a|
  {
    if a == [] {
      assert a + b == b;
    } else {
      assert (a + b)[1..] == a[1..] + b;
      DashedAppends(a[1..], b);
    }
  }

  /** Nothing is left of date words and slashes, and only text without them is unchanged. */
  lemma {:induction false} DashedFacts(s: string)
    ensures |Dashed(s)| <= |s|
    ensures NoWords(Dashed(s)) && (Dashed(s) == s <==> NoWords(s))
    decreases |s|
  {
    if s != [] {
      DashedFacts(s[1..]);
      assert s == [s[0]] + s[1..];
    }
  }

  lemma DashedOfPrefix(s: string, k: nat)
    requires k <= |s|
    ensures |Dashed(s[..k])| <= |Dashed(s)|
  {
    assert s == s[..k] + s[k..];
    DashedAppends(s[..k], s[k..]);
  }

  /** A dash for each separator, nothing for a day word, and every other character as it is. */
  lemma DashedChar(c: char)
    ensures Dashed([c]) == if IsSeparator(c) then "-" else if c == '日' then "" else [c]
  {
    assert [c][1..] == [];
  }

  lemma {:induction false} TrimStartOfWhite(w: string, t: string)
    requires AllWhite(w)
    ensures TrimStart(w + t) == TrimStart(t)
    decreases |w|
  {
    if w == [] {
      assert w + t == t;
    } else {
      assert (w + t)[1..] == w[1..] + t;
      TrimStartOfWhite(w[1..], t);
    }
  }

  lemma {:induction false} TrimEndOfWhite(t: string, w: string)
    requires AllWhite(w)
    ensures TrimEnd(t + w) == TrimEnd(t)
    decreases |w|
  {
    if w == [] {
      assert t + w == t;
    } else {
      assert (t + w)[..|t + w| - 1] == t + w[..|w| - 1];
      TrimEndOfWhite(t, w[..|w| - 1]);
    }
  }

  lemma {:induction false} TrimStartAppends(t: string, w: string)
    ensures TrimStart(t + w) == if AllWhite(t) then TrimStart(w) else TrimStart(t) + w
    decreases |t|
  {
    if AllWhite(t) {
      TrimStartOfWhite(t, w);
    } else if IsWhite(t[0]) {
      assert (t + w)[1..] == t[1..] + w;
      assert t == [t[0]] + t[1..];
      TrimStartAppends(t[1..], w);
    }
  }

  lemma {:induction false} TrimStartFacts(s: string)
    ensures TrimStart(s) == [] <==> AllWhite(s)
    ensures TrimStart(s) != [] ==> !IsWhite(TrimStart(s)[0])
    ensures |TrimStart(s)| <= |s| && TrimStart(s) == s[|s| - |TrimStart(s)|..]
    decreases |s|
  {
    if s != [] && IsWhite(s[0]) {
      assert s == [s[0]] + s[1..];
      TrimStartFacts(s[1..]);
    }
  }

  lemma {:induction false} TrimEndFacts(s: string)
    ensures |TrimEnd(s)| <= |s| && TrimEnd(s) == s[..|TrimEnd(s)|]
    ensures TrimEnd(s) != [] ==> !IsWhite(TrimEnd(s)[|TrimEnd(s)| - 1])
    decreases |s|
  {
    if s != [] && IsWhite(s[|s| - 1]) {
      TrimEndFacts(s[..|s| - 1]);
    }
  }

  /** Trimmed text has no white space at its ends, and text without any is trimmed. */
  lemma TrimFacts(s: string)
    ensures |Trim(s)| <= |s|
    ensures Trim(s) != [] ==> !IsWhite(Trim(s)[0]) && !IsWhite(Trim(s)[|Trim(s)| - 1])
    ensures Trim(s) == s <==> s == [] || (!IsWhite(s[0]) && !IsWhite(s[|s| - 1]))
  {
    TrimStartFacts(s);
    TrimEndFacts(TrimStart(s));
  }

  /** White space around a term does not change its pattern. */
  lemma SurroundingWhiteIsIgnored(before: string, term: string, after: string)
    requires AllWhite(before) && AllWhite(after)
    ensures Compiled(before + (term + after)) == Compiled(term)
  {
    TrimStartOfWhite(before, term + after);
    TrimStartAppends(term, after);
    if AllWhite(term) {
      TrimStartOfWhite(after, []);
      assert after + [] == after;
      TrimStartFacts(term);
    } else {
      TrimEndOfWhite(TrimStart(term), after);
    }
  }

  predicate AllDashes(s: string) {
    forall i :: 0 <= i < |s| ==> s[i] == '-'
  }

  lemma {:induction false} TrimDashesOfDashes(t: string, d: string)
    requires AllDashes(d)
    ensures TrimDashes(t + d) == TrimDashes(t)
    decreases |d|
  {
    if d == [] {
      assert t + d == t;
    } else {
      assert (t + d)[..|t + d| - 1] == t + d[..|d| - 1];
      TrimDashesOfDashes(t, d[..|d| - 1]);
    }
  }

  lemma {:induction false} TrimDashesFacts(s: string)
    ensures |TrimDashes(s)| <= |s| && TrimDashes(s) == s[..|TrimDashes(s)|] && AllDashes(s[|TrimDashes(s)|..])
    ensures TrimDashes(s) != [] ==> TrimDashes(s)[|TrimDashes(s)| - 1] != '-'
    ensures TrimDashes(s) == s <==> s == [] || s[|s| - 1] != '-'
    decreases |s|
  {
    if s != [] && s[|s| - 1] == '-' {
      var init := s[..|s| - 1];
      TrimDashesFacts(init);
      var k := |TrimDashes(init)|;
      assert init[..k] == s[..k] && s[k..] == init[k..] + "-";
    }
  }

  /** Dashes after a term do not change its pattern, exactly if they do not shield white space from being trimmed. */
  lemma TrailingDashesAreIgnoredIff(term: string, dashes: string)
    requires AllDashes(dashes) && dashes != []
    ensures Compiled(term + dashes) == Compiled(term) <==> AllWhite(term) || !IsWhite(term[|term| - 1])
  {
    SamePatternIff(term + dashes, term);
    NormalizedWithDashes(term, dashes);
    TrimStartFacts(term);
    if !AllWhite(term) && IsWhite(term[|term| - 1]) {
      KeptWhiteEnd(TrimStart(term));
    }
  }

  lemma NormalizedWithDashes(term: string, dashes: string)
    requires AllDashes(dashes) && dashes != []
    ensures Normalized(term + dashes) == TrimDashes(Dashed(TrimStart(term)))
  {
    var u := TrimStart(term);
    assert !IsWhite(dashes[0]) && !IsWhite(dashes[|dashes| - 1]);
    assert Trim(term + dashes) == u + dashes by {
      TrimStartAppends(term, dashes);
      TrimStartFacts(term);
      assert AllWhite(term) ==> u + dashes == dashes;
    }
    DashedFacts(dashes);
    DashedAppends(u, dashes);
    TrimDashesOfDashes(Dashed(u), dashes);
  }

  /** White space that is not trimmed stays at the end. */
  lemma KeptWhiteEnd(u: string)
    requires u != [] && IsWhite(u[|u| - 1])
    ensures |TrimDashes(Dashed(TrimEnd(u)))| < |TrimDashes(Dashed(u))|
  {
    var init, c := u[..|u| - 1], u[|u| - 1];
    DashedEnd(init, c);
    assert u == init + [c];
    TrimDashesFacts(Dashed(u));
    TrimEndFacts(init);
    DashedOfPrefix(init, |TrimEnd(init)|);
    TrimDashesFacts(Dashed(TrimEnd(init)));
  }

  /** Characters that normalising keeps unless they are trimmed as white space. */
  predicate IsKept(c: char) {
    !IsSeparator(c) && c != '日'
  }

  lemma DashedEnd(s: string, c: char)
    requires IsKept(c)
    ensures Dashed(s + [c]) == Dashed(s) + [c]
    ensures TrimDashes(Dashed(s + [c])) == Dashed(s) + [c]
  {
    DashedAppends(s, [c]);
    DashedChar(c);
    TrimDashesFacts(Dashed(s) + [c]);
  }

  lemma {:induction false} EscapedIsInjective(a: string, b: string)
    requires Escaped(a) == Escaped(b)
    ensures a == b
    decreases |a|
  {
    if a != [] && b != [] {
      var x, y := a[|a| - 1], b[|b| - 1];
      assert x == Escaped(a)[|Escaped(a)| - 1] == y;
      var width := if Special(x) then 2 else 1;
      assert Escaped(a)[..|Escaped(a)| - width] == Escaped(a[..|a| - 1]);
      assert Escaped(b)[..|Escaped(b)| - width] == Escaped(b[..|b| - 1]);
      EscapedIsInjective(a[..|a| - 1], b[..|b| - 1]);
      assert a == a[..|a| - 1] + [x] && b == b[..|b| - 1] + [y];
    }
  }

  /** Terms have the same pattern exactly if they have the same normal form. */
  lemma SamePatternIff(a: string, b: string)
    ensures Compiled(a) == Compiled(b) <==> Normalized(a) == Normalized(b)
  {
    var p, q := Escaped(Normalized(a)), Escaped(Normalized(b));
    if Compiled(a) == Compiled(b) {
      assert p == Compiled(a)[1..|Compiled(a)| - 1] == Compiled(b)[1..|Compiled(b)| - 1] == q;
      EscapedIsInjective(Normalized(a), Normalized(b));
    }
  }

  /** A term is its own normal form exactly if it has no date word or slash, and no white space or dash to trim. */
  lemma IsNormalIff(term: string)
    ensures Normalized(term) == term <==>
            && NoWords(term)
            && (term == [] || (!IsWhite(term[0]) && !IsWhite(term[|term| - 1]) && term[|term| - 1] != '-'))
  {
    TrimFacts(term);
    DashedFacts(Trim(term));
    TrimDashesFacts(Dashed(Trim(term)));
    if Normalized(term) == term {
      SameLengthIsTrimmed(term);
    }
  }

  lemma SameLengthIsTrimmed(s: string)
    requires |Trim(s)| == |s|
    ensures Trim(s) == s
  {
    TrimStartFacts(s);
    TrimEndFacts(TrimStart(s));
  }

  /** A date in one of its spellings. */
  function Spelled(y: string, first: char, m: string, second: char, d: string, last: string): string {
    y + ([first] + (m + ([second] + (d + last))))
  }

  lemma PlainIsNormal(s: string)
    requires AllPlain(s)
    ensures Dashed(s) == s
  {
    DashedFacts(s);
  }

  lemma DashedDate(y: string, first: char, m: string, second: char, d: string, last: string)
    requires AllPlain(y) && AllPlain(m) && AllPlain(d) && IsSeparator(first) && IsSeparator(second)
    requires last == "" || last == "日"
    ensures Dashed(Spelled(y, first, m, second, d, last)) == Spelled(y, '-', m, '-', d, "")
  {
    PlainIsNormal(y);
    PlainIsNormal(m);
    PlainIsNormal(d);
    DashedChar(first);
    DashedChar(second);
    if last == "日" {
      DashedChar('日');
    }
    DashedAppends(d, last);
    DashedAppends([second], d + last);
    DashedAppends(m, [second] + (d + last));
    DashedAppends([first], m + ([second] + (d + last)));
    DashedAppends(y, [first] + (m + ([second] + (d + last))));
  }

  lemma NormalizedDate(y: string, first: char, m: string, second: char, d: string, last: string)
    requires AllPlain(y) && AllPlain(m) && AllPlain(d) && d != [] && IsSeparator(first) && IsSeparator(second)
    requires last == "" || last == "日"
    ensures Normalized(Spelled(y, first, m, second, d, last)) == Spelled(y, '-', m, '-', d, "")
  {
    var t := Spelled(y, first, m, second, d, last);
    assert t[0] == if y == [] then first else y[0];
    assert t[|t| - 1] == if last == [] then d[|d| - 1] else '日';
    TrimFacts(t);
    DashedDate(y, first, m, second, d, last);
    var n := Spelled(y, '-', m, '-', d, "");
    assert n[|n| - 1] == d[|d| - 1];
    TrimDashesFacts(n);
  }

  /** However a date is spelled, its pattern is the same and finds exactly the texts that contain it with dashes. */
  lemma DateSpellings(y: string, m: string, d: string, s: string)
    requires AllPlain(y) && AllPlain(m) && AllPlain(d) && d != []
    ensures Compiled(y + "年" + m + "月" + d + "日") == Compiled(y + "-" + m + "-" + d)
    ensures Compiled(y + "/" + m + "/" + d) == Compiled(y + "-" + m + "-" + d)
    ensures Like(Compiled(y + "-" + m + "-" + d), s) <==> Contains(s, y + "-" + m + "-" + d)
  {
    assert y + "年" + m + "月" + d + "日" == Spelled(y, '年', m, '月', d, "日");
    assert y + "/" + m + "/" + d == Spelled(y, '/', m, '/', d, "");
    assert y + "-" + m + "-" + d == Spelled(y, '-', m, '-', d, "");
    NormalizedDate(y, '年', m, '月', d, "日");
    NormalizedDate(y, '/', m, '/', d, "");
    NormalizedDate(y, '-', m, '-', d, "");
    CompiledMeansContains(y + "-" + m + "-" + d, s);
  }

  /** A date without its day: the word at its end leaves nothing behind. */
  lemma MonthSpellings(y: string, m: string, s: string)
    requires AllPlain(y) && AllPlain(m) && m != []
    ensures Compiled(y + "年" + m + "月") == Compiled(y + "-" + m)
    ensures Compiled(y + "/" + m) == Compiled(y + "-" + m)
    ensures Like(Compiled(y + "-" + m), s) <==> Contains(s, y + "-" + m)
  {
    NormalizedMonth(y, '年', m, "月");
    NormalizedMonth(y, '/', m, "");
    NormalizedMonth(y, '-', m, "");
    assert y + "年" + m + "月" == y + (['年'] + (m + "月"));
    assert y + "/" + m == y + (['/'] + (m + ""));
    assert y + "-" + m == y + (['-'] + (m + ""));
    CompiledMeansContains(y + "-" + m, s);
  }

  lemma NormalizedMonth(y: string, first: char, m: string, last: string)
    requires AllPlain(y) && AllPlain(m) && m != [] && IsSeparator(first)
    requires last == "" || last == "月"
    ensures Normalized(y + ([first] + (m + last))) == y + "-" + m
  {
    var t := y + ([first] + (m + last));
    assert t[0] == if y == [] then first else y[0];
    assert t[|t| - 1] == if last == [] then m[|m| - 1] else '月';
    TrimFacts(t);
    DashedMonth(y, first, m, last);
    var dashes := if last == [] then "" else "-";
    TrimDashesOfDashes(y + "-" + m, dashes);
    TrimDashesFacts(y + "-" + m);
  }

  lemma DashedMonth(y: string, first: char, m: string, last: string)
    requires AllPlain(y) && AllPlain(m) && IsSeparator(first) && (last == "" || last == "月")
    ensures Dashed(y + ([first] + (m + last))) == (y + "-" + m) + (if last == [] then "" else "-")
  {
    var dashes := if last == [] then "" else "-";
    assert Dashed(m + last) == m + dashes by {
      PlainIsNormal(m);
      DashedChar('月');
      DashedAppends(m, last);
    }
    assert Dashed([first] + (m + last)) == "-" + (m + dashes) by {
      DashedChar(first);
      DashedAppends([first], m + last);
    }
    PlainIsNormal(y);
    DashedAppends(y, [first] + (m + last));
  }

  // ---- normalising twice ----

  predicate AllDays(s: string) {
    forall i :: 0 <= i < |s| ==> s[i] == '日'
  }

  /** Nothing is left of these characters at the end of a term. */
  predicate Vanishes(s: string) {
    forall i :: 0 <= i < |s| ==> IsSeparator(s[i]) || s[i] == '日'
  }

  /** White space inside a trimmed term that comes to stand at an end, because what is before or after it vanishes. */
  predicate IsBared(t: string, i: nat) {
    i < |t| && IsWhite(t[i]) && (AllDays(t[..i]) || Vanishes(t[i + 1..]))
  }

  /** Normalising twice is normalising once exactly if normalising bares no white space. */
  lemma NormalizedTwiceIff(term: string)
    ensures Normalized(Normalized(term)) == Normalized(term) <==> !exists i: nat :: IsBared(Trim(term), i)
  {
    var t, n := Trim(term), Normalized(term);
    IsNormalIff(n);
    DashedFacts(t);
    TrimDashesFacts(Dashed(t));
    assert Normalized(n) == n <==> n == [] || (!IsWhite(n[0]) && !IsWhite(n[|n| - 1]));
    if i: nat :| IsBared(t, i) {
      BaredIsAtEnd(t, i);
    }
    if n != [] && IsWhite(n[0]) {
      FirstIsBared(t);
    }
    if n != [] && IsWhite(n[|n| - 1]) {
      LastIsBared(t);
    }
  }

  lemma DashedAround(t: string, i: nat)
    requires i < |t| && IsKept(t[i])
    ensures Dashed(t) == Dashed(t[..i]) + ([t[i]] + Dashed(t[i + 1..]))
  {
    assert t == t[..i] + ([t[i]] + t[i + 1..]);
    DashedAppends([t[i]], t[i + 1..]);
    DashedAppends(t[..i], [t[i]] + t[i + 1..]);
    DashedChar(t[i]);
  }

  lemma {:induction false} DashedIsEmptyIff(s: string)
    ensures Dashed(s) == [] <==> AllDays(s)
    decreases |s|
  {
    if s != [] {
      assert s == [s[0]] + s[1..];
      DashedIsEmptyIff(s[1..]);
    }
  }

  lemma {:induction false} DashedIsDashesIff(s: string)
    ensures AllDashes(Dashed(s)) <==> Vanishes(s)
    decreases |s|
  {
    if s != [] {
      assert s == [s[0]] + s[1..];
      DashedIsDashesIff(s[1..]);
      DashedAppends([s[0]], s[1..]);
      DashedChar(s[0]);
      var front, rest := Dashed([s[0]]), Dashed(s[1..]);
      assert AllDashes(front + rest) <==> AllDashes(front) && AllDashes(rest) by {
        assert forall i :: 0 <= i < |front| ==> front[i] == (front + rest)[i];
        assert forall i :: 0 <= i < |rest| ==> rest[i] == (front + rest)[|front| + i];
      }
    }
  }

  lemma TrimDashesKeeps(s: string, i: nat)
    requires i < |s| && s[i] != '-'
    ensures i < |TrimDashes(s)|
  {
    TrimDashesFacts(s);
    var rest := s[|TrimDashes(s)|..];
    assert forall j :: |TrimDashes(s)| <= j < |s| ==> s[j] == rest[j - |TrimDashes(s)|];
  }

  lemma BaredIsAtEnd(t: string, i: nat)
    requires IsBared(t, i)
    ensures var n := TrimDashes(Dashed(t)); n != [] && (IsWhite(n[0]) || IsWhite(n[|n| - 1]))
  {
    DashedAround(t, i);
    var before, after := Dashed(t[..i]), Dashed(t[i + 1..]);
    DashedIsEmptyIff(t[..i]);
    DashedIsDashesIff(t[i + 1..]);
    TrimDashesFacts(Dashed(t));
    var n := TrimDashes(Dashed(t));
    TrimDashesKeeps(Dashed(t), |before|);
    if !AllDays(t[..i]) {
      assert Dashed(t) == (before + [t[i]]) + after;
      TrimDashesOfDashes(before + [t[i]], after);
      TrimDashesFacts(before + [t[i]]);
    }
  }

  lemma FirstIsBared(t: string)
    requires Dashed(t) != [] && IsWhite(Dashed(t)[0])
    ensures exists i: nat :: IsBared(t, i)
  {
    var i := FirstLeft(t);
    assert IsBared(t, i);
  }

  /** The first character that is not a day word. */
  lemma {:induction false} FirstLeft(t: string) returns (i: nat)
    requires Dashed(t) != []
    ensures i < |t| && t[i] != '日' && AllDays(t[..i])
    ensures Dashed(t)[0] == if IsSeparator(t[i]) then '-' else t[i]
    decreases |t|
  {
    if t[0] == '日' {
      var j := FirstLeft(t[1..]);
      i := j + 1;
      assert t[..i] == ['日'] + t[1..][..i - 1];
    } else {
      i := 0;
    }
  }

  lemma LastIsBared(t: string)
    requires var n := TrimDashes(Dashed(t)); n != [] && IsWhite(n[|n| - 1])
    ensures exists i: nat :: IsBared(t, i)
  {
    var i := LastLeft(t);
    assert IsBared(t, i);
  }

  /** The last character that does not vanish. */
  lemma {:induction false} LastLeft(t: string) returns (i: nat)
    requires TrimDashes(Dashed(t)) != []
    ensures i < |t| && IsKept(t[i]) && Vanishes(t[i + 1..])
    ensures var n := TrimDashes(Dashed(t)); n[|n| - 1] == t[i]
    decreases |t|
  {
    var init, c := t[..|t| - 1], t[|t| - 1];
    assert t == init + [c];
    if IsKept(c) {
      i := |init|;
      DashedEnd(init, c);
    } else {
      VanishingEnd(init, c);
      i := LastLeft(init);
      assert t[i + 1..] == init[i + 1..] + [c];
    }
  }

  lemma VanishingEnd(s: string, c: char)
    requires !IsKept(c)
    ensures TrimDashes(Dashed(s + [c])) == TrimDashes(Dashed(s))
  {
    DashedAppends(s, [c]);
    DashedChar(c);
    TrimDashesOfDashes(Dashed(s), Dashed([c]));
  }

  /** The failing case exists: a day word before white space, normalised twice. */
  lemma DayWordBaresWhite()
    ensures Normalized("日 a") == " a" && Normalized(" a") == "a"
  {
    IsNormalIff("a");
    assert Compiled(" " + ("a" + "")) == Compiled("a") by {
      SurroundingWhiteIsIgnored(" ", "a", "");
    }
    assert " " + ("a" + "") == " a";
    SamePatternIff(" a", "a");
    TrimFacts("日 a");
    DashedWithDay();
    TrimDashesFacts(" a");
  }

  lemma DashedWithDay()
    ensures Dashed("日 a") == " a"
  {
    assert "日 a" == ['日'] + " a";
    DashedAppends(['日'], " a");
    DashedChar('日');
    DashedFacts(" a");
  }
}
