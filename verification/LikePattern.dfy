/**
 LIKE patterns and quoted literals of libpgduckdb/scan/postgres_scan.cpp: `contains`, `prefix` and
 `suffix` calls with a constant needle become PostgreSQL LIKE expressions.
 */
module LikePattern {
  import opened Basics

  datatype LikeFunction = Contains | Prefix | Suffix

  // ---------- building the pattern ----------

  /** Every occurrence of the character `from` becomes the string `to`. */
  function Replace(s: string, from: char, to: string): string {
    if s == [] then [] else (if s[0] == from then to else [s[0]]) + Replace(s[1..], from, to)
  }

  /** The successive replacements that are applied to a needle. */
  function EscapeNeedle(needle: string): string {
    var s1 := Replace(needle, '\'', "''");
    var s2 := Replace(s1, '\\', "\\\\");
    var s3 := Replace(s2, '%', "\\%");
    Replace(s3, '_', "\\_")
  }

  /** The quoted LIKE pattern that is emitted for a constant needle; a null needle becomes NULL. */
  function FuncArgToLikeString(f: LikeFunction, needle: Option<string>): string {
    if needle.None? then "NULL"
    else
      var s := EscapeNeedle(needle.value);
      match f
      case Contains => "'%" + s + "%'"
      case Suffix => "'%" + s + "'"
      case Prefix => "'" + s + "%'"
  }

  /** The quoted form of a string constant. */
  function QuoteLiteral(s: string): string {
    "'" + Replace(s, '\'', "''") + "'"
  }

  // ---------- what PostgreSQL makes of it ----------

  /** The body of a quoted literal, up to the closing quote: the string it denotes and the text behind it. */
  function ReadBody(text: string): Option<(string, string)> {
    if text == [] then None
    else if text[0] != '\'' then
      var rest := ReadBody(text[1..]);
      if rest.None? then None else Some(([text[0]] + rest.value.0, rest.value.1))
    else if |text| > 1 && text[1] == '\'' then
      var rest := ReadBody(text[2..]);
      if rest.None? then None else Some((['\''] + rest.value.0, rest.value.1))
    else Some(([], text[1..]))
  }

  /** The string that a quoted literal denotes, with standard_conforming_strings on. */
  function ReadLiteral(text: string): Option<string> {
    if text == [] || text[0] != '\'' then None
    else
      var body := ReadBody(text[1..]);
      if body.None? || body.value.1 != [] then None else Some(body.value.0)
  }

  /** LIKE with a backslash as the escape character; a pattern that ends in one matches nothing. */
  predicate Like(s: string, pattern: string)
    decreases |pattern|, |s|
  {
    if pattern == [] then s == []
    else match pattern[0]
      case '%' => Like(s, pattern[1..]) || (s != [] && Like(s[1..], pattern))
      case '_' => s != [] && Like(s[1..], pattern[1..])
      case '\\' => |pattern| > 1 && s != [] && s[0] == pattern[1] && Like(s[1..], pattern[2..])
      case c => s != [] && s[0] == c && Like(s[1..], pattern[1..])
  }

  // ---------- the escape, character by character ----------

  /** The pattern that matches one character literally. */
  function LikeChar(c: char): string {
    if c == '\\' || c == '%' || c == '_' then ['\\', c] else [c]
  }

  function LikeEscape(s: string): string {
    if s == [] then [] else LikeChar(s[0]) + LikeEscape(s[1..])
  }

  lemma {:induction false} ReplaceConcat(a: string, b: string, from: char, to: string)
    ensures Replace(a + b, from, to) == Replace(a, from, to) + Replace(b, from, to)
  {
    if a == [] {
      assert a + b == b;
    } else {
      ReplaceConcat(a[1..], b, from, to);
      ReplaceCons(a + b, a[1..] + b, from, to);
      ReplaceCons(a, a[1..], from, to);
      ConcatAssoc(if a[0] == from then to else [a[0]], Replace(a[1..], from, to), Replace(b, from, to));
    }
  }

  lemma {:induction false} ReplaceCons(s: string, tail: string, from: char, to: string)
    requires s != [] && tail == s[1..]
    ensures Replace(s, from, to) == (if s[0] == from then to else [s[0]]) + Replace(tail, from, to)
  {
  }

  lemma ConcatAssoc(a: string, b: string, c: string)
    ensures a + b + c == a + (b + c)
  {
  }

  lemma EscapeConcat(a: string, b: string)
    ensures EscapeNeedle(a + b) == EscapeNeedle(a) + EscapeNeedle(b)
  {
    ReplaceConcat(a, b, '\'', "''");
    var a1, b1 := Replace(a, '\'', "''"), Replace(b, '\'', "''");
    ReplaceConcat(a1, b1, '\\', "\\\\");
    var a2, b2 := Replace(a1, '\\', "\\\\"), Replace(b1, '\\', "\\\\");
    ReplaceConcat(a2, b2, '%', "\\%");
    var a3, b3 := Replace(a2, '%', "\\%"), Replace(b2, '%', "\\%");
    ReplaceConcat(a3, b3, '_', "\\_");
  }

  lemma {:induction false} ReplaceChar(c: char, from: char, to: string)
    ensures Replace([c], from, to) == if c == from then to else [c]
  {
    assert [c][1..] == [];
  }

  lemma {:induction false} ReplacePair(c: char, d: char, from: char, to: string)
    ensures Replace([c, d], from, to) == (if c == from then to else [c]) + if d == from then to else [d]
  {
    assert [c, d] == [c] + [d];
    ReplaceConcat([c], [d], from, to);
    ReplaceChar(c, from, to);
    ReplaceChar(d, from, to);
  }

  lemma EscapeChar(c: char)
    ensures EscapeNeedle([c]) == Replace(LikeChar(c), '\'', "''")
  {
    ReplaceChar(c, '\'', "''");
    ReplaceChar(c, '\\', "\\\\");
    ReplaceChar(c, '%', "\\%");
    ReplaceChar(c, '_', "\\_");
    ReplacePair('\'', '\'', '\\', "\\\\");
    ReplacePair('\'', '\'', '%', "\\%");
    ReplacePair('\'', '\'', '_', "\\_");
    ReplacePair('\\', '\\', '%', "\\%");
    ReplacePair('\\', '\\', '_', "\\_");
    ReplacePair('\\', '%', '_', "\\_");
    ReplacePair('\\', c, '\'', "''");
  }

  /** The four passes together escape each character once for LIKE and double the quotes. */
  lemma {:induction false} EscapeIsQuotedLike(s: string)
    ensures EscapeNeedle(s) == Replace(LikeEscape(s), '\'', "''")
  {
    if s != [] {
      EscapeIsQuotedLike(s[1..]);
      assert s == [s[0]] + s[1..];
      EscapeConcat([s[0]], s[1..]);
      EscapeChar(s[0]);
      ReplaceConcat(LikeChar(s[0]), LikeEscape(s[1..]), '\'', "''");
    }
  }

  // ---------- literals read back ----------

  lemma {:induction false} ReadBodyQuoted(s: string, rest: string)
    requires rest == [] || rest[0] != '\''
    ensures ReadBody(Replace(s, '\'', "''") + "'" + rest) == Some((s, rest))
  {
    var text := Replace(s, '\'', "''") + "'" + rest;
    if s == [] {
      assert text[1..] == rest;
    } else {
      ReadBodyQuoted(s[1..], rest);
      var tail := Replace(s[1..], '\'', "''") + "'" + rest;
      if s[0] == '\'' {
        assert text[2..] == tail;
      } else {
        assert text[1..] == tail;
      }
      assert [s[0]] + s[1..] == s;
    }
  }

  /** Reading a quoted string constant gives the string back. */
  lemma QuoteRoundTrip(s: string)
    ensures ReadLiteral(QuoteLiteral(s)) == Some(s)
  {
    ReadBodyQuoted(s, []);
    assert QuoteLiteral(s)[1..] == Replace(s, '\'', "''") + "'" + [];
  }

  /** The pattern that the emitted literal stands for. */
  function PatternOf(f: LikeFunction, needle: string): string {
    match f
    case Contains => "%" + LikeEscape(needle) + "%"
    case Suffix => "%" + LikeEscape(needle)
    case Prefix => LikeEscape(needle) + "%"
  }

  lemma LikeLiteralReadsBack(f: LikeFunction, needle: string)
    ensures ReadLiteral(FuncArgToLikeString(f, Some(needle))) == Some(PatternOf(f, needle))
  {
    hide Replace, LikeEscape, EscapeNeedle;
    EscapeIsQuotedLike(needle);
    var e := LikeEscape(needle);
    ReplaceChar('%', '\'', "''");
    ReplaceConcat("%", e, '\'', "''");
    ReplaceConcat(e, "%", '\'', "''");
    ReplaceConcat("%" + e, "%", '\'', "''");
    assert FuncArgToLikeString(f, Some(needle)) == QuoteLiteral(PatternOf(f, needle));
    QuoteRoundTrip(PatternOf(f, needle));
  }

  // ---------- matching ----------

  /** An escaped needle in front of a pattern matches exactly that needle. */
  lemma {:induction false} LikeEscaped(s: string, needle: string, pattern: string)
    ensures Like(s, LikeEscape(needle) + pattern) <==> needle <= s && Like(s[|needle|..], pattern)
  {
    var p := LikeEscape(needle) + pattern;
    if needle == [] {
      assert p == pattern && s[0..] == s;
    } else {
      var c := needle[0];
      var rest := LikeEscape(needle[1..]) + pattern;
      assert p == LikeChar(c) + rest;
      assert p[|LikeChar(c)|..] == rest;
      assert Like(s, p) <==> s != [] && s[0] == c && Like(s[1..], rest);
      if s != [] {
        LikeEscaped(s[1..], needle[1..], pattern);
        assert needle <= s <==> s[0] == c && needle[1..] <= s[1..];
        assert |needle| <= |s| ==> s[1..][|needle[1..]|..] == s[|needle|..];
      }
    }
  }

  lemma {:induction false} LikeAnything(s: string)
    ensures Like(s, "%")
  {
    assert "%"[1..] == [];
    if s != [] { LikeAnything(s[1..]); }
  }

  /** A leading % tries every suffix. */
  lemma {:induction false} LikePercent(s: string, pattern: string)
    ensures Like(s, "%" + pattern) <==> exists k :: 0 <= k <= |s| && Like(s[k..], pattern)
    decreases |s|
  {
    assert ("%" + pattern)[1..] == pattern;
    assert s[0..] == s;
    if s != [] {
      LikePercent(s[1..], pattern);
      forall k | 0 <= k <= |s| - 1 ensures s[1..][k..] == s[k + 1..] {}
      if k :| 0 <= k <= |s| && Like(s[k..], pattern) {
        if k > 0 { assert s[1..][k - 1..] == s[k..]; }
      }
    }
  }

  ghost predicate Holds(f: LikeFunction, haystack: string, needle: string) {
    match f
    case Contains => exists k :: 0 <= k <= |haystack| && needle <= haystack[k..]
    case Prefix => needle <= haystack
    case Suffix => exists k :: 0 <= k <= |haystack| && haystack[k..] == needle
  }

  /**
   For every haystack and needle: PostgreSQL's LIKE on the literal that is emitted holds exactly
   when the needle occurs in the haystack, starts it, or ends it.
   */
  lemma {:induction false} LikeMeansFunction(f: LikeFunction, haystack: string, needle: string)
    ensures ReadLiteral(FuncArgToLikeString(f, Some(needle))).Some?
    ensures Like(haystack, ReadLiteral(FuncArgToLikeString(f, Some(needle))).value) <==> Holds(f, haystack, needle)
  {
    LikeLiteralReadsBack(f, needle);
    var e := LikeEscape(needle);
    match f
    case Contains =>
      assert "%" + e + "%" == "%" + (e + "%");
      LikePercent(haystack, e + "%");
      forall k | 0 <= k <= |haystack| ensures Like(haystack[k..], e + "%") <==> needle <= haystack[k..] {
        LikeEscaped(haystack[k..], needle, "%");
        if needle <= haystack[k..] { LikeAnything(haystack[k..][|needle|..]); }
      }
    case Prefix =>
      LikeEscaped(haystack, needle, "%");
      if needle <= haystack { LikeAnything(haystack[|needle|..]); }
    case Suffix =>
      LikePercent(haystack, e);
      forall k | 0 <= k <= |haystack| ensures Like(haystack[k..], e) <==> haystack[k..] == needle {
        assert e + [] == e;
        LikeEscaped(haystack[k..], needle, []);
      }
  }
}
