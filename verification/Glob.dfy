/** Translating glob patterns to SQL LIKE patterns, and what both match. */
module Glob {
  import opened Common

  // ---------------------------------------------------------------------------------------
  // The translation
  // ---------------------------------------------------------------------------------------

  /** Every occurrence of a character replaced by a text. */
  function Replace(s: string, c: char, to: string): string {
    if s == "" then "" else (if s[0] == c then to else [s[0]]) + Replace(s[1..], c, to)
  }

  /** The translation: escape what LIKE treats specially, then turn the wildcards around. */
  function GlobToLike(glob: string): string {
    var p := Replace(glob, '\\', "\\\\");
    var p := Replace(p, '%', "\\%");
    var p := Replace(p, '_', "\\_");
    var p := Replace(p, '*', "%");
    Replace(p, '?', "_")
  }

  /** What each glob character becomes. */
  function Translated(c: char): string {
    match c
    case '\\' => "\\\\"
    case '%' => "\\%"
    case '_' => "\\_"
    case '*' => "%"
    case '?' => "_"
    case _ => [c]
  }

  function TranslatedAll(glob: string): (r: string)
    ensures |r| >= |glob|
  {
    if glob == "" then "" else Translated(glob[0]) + TranslatedAll(glob[1..])
  }

  lemma {:induction false} ReplaceConcat(a: string, b: string, c: char, to: string)
    ensures Replace(a + b, c, to) == Replace(a, c, to) + Replace(b, c, to)
  {
    if a == "" {
      assert a + b == b;
    } else {
      assert (a + b)[1..] == a[1..] + b;
      ReplaceConcat(a[1..], b, c, to);
    }
  }

  lemma GlobToLikeConcat(a: string, b: string)
    ensures GlobToLike(a + b) == GlobToLike(a) + GlobToLike(b)
  {
    ReplaceConcat(a, b, '\\', "\\\\");
    var a1, b1 := Replace(a, '\\', "\\\\"), Replace(b, '\\', "\\\\");
    ReplaceConcat(a1, b1, '%', "\\%");
    var a2, b2 := Replace(a1, '%', "\\%"), Replace(b1, '%', "\\%");
    ReplaceConcat(a2, b2, '_', "\\_");
    var a3, b3 := Replace(a2, '_', "\\_"), Replace(b2, '_', "\\_");
    ReplaceConcat(a3, b3, '*', "%");
    ReplaceConcat(Replace(a3, '*', "%"), Replace(b3, '*', "%"), '?', "_");
  }

  lemma ReplaceOne(d: char, c: char, to: string)
    ensures Replace([d], c, to) == if d == c then to else [d]
  {
    assert [d][1..] == "";
  }

  lemma ReplaceTwo(d: char, e: char, c: char, to: string)
    ensures Replace([d, e], c, to) == (if d == c then to else [d]) + (if e == c then to else [e])
  {
    assert [d, e] == [d] + [e];
    ReplaceConcat([d], [e], c, to);
    ReplaceOne(d, c, to);
    ReplaceOne(e, c, to);
  }

  lemma GlobToLikeChar(c: char)
    ensures GlobToLike([c]) == Translated(c)
  {
    ReplaceOne(c, '\\', "\\\\");
    if c == '\\' {
      ReplaceTwo('\\', '\\', '%', "\\%");
      ReplaceTwo('\\', '\\', '_', "\\_");
      ReplaceTwo('\\', '\\', '*', "%");
      ReplaceTwo('\\', '\\', '?', "_");
    } else {
      ReplaceOne(c, '%', "\\%");
      if c == '%' {
        ReplaceTwo('\\', '%', '_', "\\_");
        ReplaceTwo('\\', '%', '*', "%");
        ReplaceTwo('\\', '%', '?', "_");
      } else {
        ReplaceOne(c, '_', "\\_");
        if c == '_' {
          ReplaceTwo('\\', '_', '*', "%");
          ReplaceTwo('\\', '_', '?', "_");
        } else {
          ReplaceOne(c, '*', "%");
          ReplaceOne(c, '?', "_");
          ReplaceOne('%', '?', "_");
        }
      }
    }
  }

  /** The five successive replacements amount to translating each character on its own. */
  lemma {:induction false} TranslationIsPerCharacter(glob: string)
    ensures GlobToLike(glob) == TranslatedAll(glob)
  {
    if glob != "" {
      assert glob == [glob[0]] + glob[1..];
      GlobToLikeConcat([glob[0]], glob[1..]);
      GlobToLikeChar(glob[0]);
      TranslationIsPerCharacter(glob[1..]);
    }
  }

  // ---------------------------------------------------------------------------------------
  // What patterns match
  // ---------------------------------------------------------------------------------------

  /** How two characters are compared: exactly, or ignoring case. */
  type Same = (char, char) -> bool

  /** A glob: `*` matches any text, `?` any one character, anything else itself. */
  predicate GlobMatches(glob: string, s: string, same: Same)
    decreases |glob|
  {
    if glob == "" then s == ""
    else if glob[0] == '*' then exists k | 0 <= k <= |s| :: GlobMatches(glob[1..], s[k..], same)
    else s != "" && (glob[0] == '?' || same(glob[0], s[0])) && GlobMatches(glob[1..], s[1..], same)
  }

  datatype Token = Literal(c: char) | One | Any

  /** A LIKE pattern read with escape character `\`; none when an escape is followed by nothing or
      by a character that needs no escape (section 8.5 of ISO/IEC 9075:1992). */
  function Tokens(pattern: string): Option<seq<Token>>
    decreases |pattern|
  {
    if pattern == "" then Some([])
    else if pattern[0] == '\\' then
      if |pattern| < 2 || pattern[1] !in "\\%_" then None
      else Before(Literal(pattern[1]), Tokens(pattern[2..]))
    else Before(if pattern[0] == '%' then Any else if pattern[0] == '_' then One else Literal(pattern[0]), Tokens(pattern[1..]))
  }

  function Before(t: Token, rest: Option<seq<Token>>): Option<seq<Token>> {
    if rest.Some? then Some([t] + rest.value) else None
  }

  predicate Fits(t: Token, part: string, same: Same) {
    match t
    case Literal(c) => |part| == 1 && same(c, part[0])
    case One => |part| == 1
    case Any => true
  }

  function Concat(parts: seq<string>): string {
    if parts == [] then "" else parts[0] + Concat(parts[1..])
  }

  ghost predicate Partition(tokens: seq<Token>, parts: seq<string>, s: string, same: Same) {
    && |parts| == |tokens|
    && (forall i | 0 <= i < |tokens| :: Fits(tokens[i], parts[i], same))
    && Concat(parts) == s
  }

  /** LIKE: the text splits into one part for each token of the pattern. */
  ghost predicate LikeMatches(pattern: string, s: string, same: Same) {
    Tokens(pattern).Some? && exists parts :: Partition(Tokens(pattern).value, parts, s, same)
  }

  // ---------------------------------------------------------------------------------------
  // The translation preserves matching
  // ---------------------------------------------------------------------------------------

  function TokenOf(c: char): Token {
    if c == '*' then Any else if c == '?' then One else Literal(c)
  }

  function GlobTokens(glob: string): seq<Token> {
    if glob == "" then [] else [TokenOf(glob[0])] + GlobTokens(glob[1..])
  }

  /** The translated pattern is always a legal LIKE pattern, one token for each glob character. */
  lemma {:induction false} TranslatedTokens(glob: string)
    ensures Tokens(TranslatedAll(glob)) == Some(GlobTokens(glob))
  {
    if glob != "" {
      var first, rest := Translated(glob[0]), TranslatedAll(glob[1..]);
      TranslatedTokens(glob[1..]);
      assert (first + rest)[|first|..] == rest;
    }
  }

  lemma PartitionHead(t: Token, tokens: seq<Token>, parts: seq<string>, s: string, same: Same)
    requires Partition([t] + tokens, parts, s, same)
    ensures |parts[0]| <= |s| && s[..|parts[0]|] == parts[0]
    ensures Fits(t, parts[0], same) && Partition(tokens, parts[1..], s[|parts[0]|..], same)
  {
    assert ([t] + tokens)[0] == t;
    assert s == parts[0] + Concat(parts[1..]);
    forall i | 0 <= i < |tokens|
      ensures Fits(tokens[i], parts[1..][i], same)
    {
      assert ([t] + tokens)[i + 1] == tokens[i];
    }
  }

  lemma PartitionCons(t: Token, tokens: seq<Token>, part: string, parts: seq<string>, s: string, same: Same)
    requires Fits(t, part, same) && Partition(tokens, parts, s, same)
    ensures Partition([t] + tokens, [part] + parts, part + s, same)
  {
    assert ([part] + parts)[1..] == parts;
  }

  lemma {:induction false} GlobToPartition(glob: string, s: string, same: Same) returns (parts: seq<string>)
    requires GlobMatches(glob, s, same)
    ensures Partition(GlobTokens(glob), parts, s, same)
    decreases |glob|
  {
    if glob == "" {
      parts := [];
    } else {
      var k := 1;
      if glob[0] == '*' {
        k :| 0 <= k <= |s| && GlobMatches(glob[1..], s[k..], same);
      }
      var rest := GlobToPartition(glob[1..], s[k..], same);
      PartitionCons(TokenOf(glob[0]), GlobTokens(glob[1..]), s[..k], rest, s[k..], same);
      assert s[..k] + s[k..] == s;
      parts := [s[..k]] + rest;
    }
  }

  lemma {:induction false} PartitionToGlob(glob: string, parts: seq<string>, s: string, same: Same)
    requires Partition(GlobTokens(glob), parts, s, same)
    ensures GlobMatches(glob, s, same)
    decreases |glob|
  {
    if glob != "" {
      PartitionHead(TokenOf(glob[0]), GlobTokens(glob[1..]), parts, s, same);
      var k := |parts[0]|;
      PartitionToGlob(glob[1..], parts[1..], s[k..], same);
      if glob[0] != '*' {
        assert k == 1 && parts[0][0] == s[0];
      }
    }
  }

  /** The translated pattern matches a text exactly when the glob does, for every glob and text, and
      however characters are compared. */
  lemma TranslationPreservesMatching(glob: string, s: string, same: Same)
    ensures LikeMatches(GlobToLike(glob), s, same) <==> GlobMatches(glob, s, same)
  {
    TranslationIsPerCharacter(glob);
    TranslatedTokens(glob);
    if GlobMatches(glob, s, same) {
      var parts := GlobToPartition(glob, s, same);
    }
    if parts :| Partition(GlobTokens(glob), parts, s, same) {
      PartitionToGlob(glob, parts, s, same);
    }
  }

  /** The search's filter: no filter at all for the pattern that is a lone `%`. */
  ghost predicate SearchKeeps(filename: string, s: string, same: Same) {
    var pattern := GlobToLike(filename);
    pattern != "%" ==> LikeMatches(pattern, s, same)
  }

  /** The search keeps a file name exactly when the glob matches it. */
  lemma SearchIsGlobMatch(filename: string, s: string, same: Same)
    ensures SearchKeeps(filename, s, same) <==> GlobMatches(filename, s, same)
  {
    TranslationPreservesMatching(filename, s, same);
    TranslationIsPerCharacter(filename);
    if GlobToLike(filename) == "%" {
      assert filename != "" && Translated(filename[0]) == "%" && filename[0] == '*';
      assert filename[1..] == "";
      assert s[|s|..] == "" && GlobMatches(filename[1..], s[|s|..], same);
    }
  }

  lemma {:induction false} GlobTokensInjective(a: string, b: string)
    requires GlobTokens(a) == GlobTokens(b)
    ensures a == b
  {
    if a != "" && b != "" {
      assert GlobTokens(a)[0] == TokenOf(a[0]) && GlobTokens(b)[0] == TokenOf(b[0]);
      assert GlobTokens(a)[1..] == GlobTokens(a[1..]) && GlobTokens(b)[1..] == GlobTokens(b[1..]);
      GlobTokensInjective(a[1..], b[1..]);
    }
  }

  /** No two globs share a translation. */
  lemma TranslationIsInjective(a: string, b: string)
    requires GlobToLike(a) == GlobToLike(b)
    ensures a == b
  {
    TranslationIsPerCharacter(a);
    TranslationIsPerCharacter(b);
    TranslatedTokens(a);
    TranslatedTokens(b);
    GlobTokensInjective(a, b);
  }
}
