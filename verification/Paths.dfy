/** Project-path patterns: literal paths and globs over stored paths. */
module Paths {
  import opened Basics
  import opened Glob

  /** The case folding of a run, as a finite table; it is empty on a case-sensitive filesystem. */
  type CaseFold = map<string, string>

  function Fold(fold: CaseFold, s: string): string {
    if s in fold then fold[s] else s
  }

  predicate Separator(c: char) {
    c == '/' || c == '\\'
  }

  function TrimEnd(path: string): string {
    if path != "" && Separator(path[|path| - 1]) then TrimEnd(path[..|path| - 1]) else path
  }

  /** Strips trailing separators; a path of separators only keeps its first. */
  function Normalize(path: string): string {
    var trimmed := TrimEnd(path);
    if trimmed == "" && path != "" then path[..1] else trimmed
  }

  predicate HasMeta(s: string) {
    '*' in s || '?' in s || '[' in s
  }

  datatype Matcher = Exact(path: string) | Pattern(tokens: seq<Token>)

  /** Whether a pattern selects a stored path. */
  ghost predicate Selects(input: string, fold: CaseFold, stored: string) {
    if HasMeta(input) then
      Terminated(Fold(fold, input)) && Fits(Fold(fold, input), Fold(fold, Normalize(stored)))
    else
      Fold(fold, Normalize(input)) == Fold(fold, Normalize(stored))
  }

  ghost predicate WellFormed(input: string, fold: CaseFold) {
    HasMeta(input) ==> Terminated(Fold(fold, input))
  }

  /** The matcher decides the selection of every stored path. */
  ghost predicate Decides(matcher: Matcher, input: string, fold: CaseFold) {
    match matcher
    case Exact(path) => !HasMeta(input) && path == Fold(fold, Normalize(input))
    case Pattern(tokens) =>
      && HasMeta(input) && Terminated(Fold(fold, input))
      && forall v {:trigger Matches(tokens, v)} :: Matches(tokens, v) <==> Fits(Fold(fold, input), v)
  }

  method NewMatcher(input: string, fold: CaseFold) returns (r: Result<Matcher>)
    ensures r.Success? <==> WellFormed(input, fold)
    ensures r.Failure? ==> r.error == InvalidArgument
    ensures r.Success? ==> Decides(r.value, input, fold)
  {
    if !HasMeta(input) {
      return Success(Exact(Fold(fold, Normalize(input))));
    }
    var tokens := ParseGlob(Fold(fold, input));
    match tokens
    case Failure(error) => r := Failure(error);
    case Success(value) => r := Success(Pattern(value));
  }

  method MatchesPath(matcher: Matcher, stored: string, fold: CaseFold, ghost input: string) returns (r: bool)
    requires Decides(matcher, input, fold)
    ensures r <==> Selects(input, fold, stored)
  {
    var normalized := Fold(fold, Normalize(stored));
    match matcher
    case Exact(path) => r := path == normalized;
    case Pattern(tokens) => r := GlobMatches(tokens, normalized);
  }

  lemma {:induction false} TrimEndExact(path: string)
    ensures TrimEnd(path) <= path
    ensures TrimEnd(path) != "" ==> !Separator(TrimEnd(path)[|TrimEnd(path)| - 1])
    ensures forall i | |TrimEnd(path)| <= i < |path| :: Separator(path[i])
  {
    if path != "" && Separator(path[|path| - 1]) { TrimEndExact(path[..|path| - 1]); }
  }

  /** A normalized path is its own normal form, and ends in a slash or backslash only when it is one. */
  lemma NormalForm(path: string)
    ensures Normalize(Normalize(path)) == Normalize(path)
    ensures var n := Normalize(path); n != "" && (n[|n| - 1] == '/' || n[|n| - 1] == '\\') ==> |n| == 1
  {
    TrimEndExact(path);
    TrimEndExact(Normalize(path));
    var n := Normalize(path);
    if n == TrimEnd(path) && n != "" {
      assert TrimEnd(n) == n;
    } else if n != "" {
      assert n[..0] == "" && TrimEnd(n[..0]) == "";
    }
  }

  /** A path that ends in any other character is its own normal form. */
  lemma PlainEnd(path: string)
    requires path != "" && path[|path| - 1] != '/' && path[|path| - 1] != '\\'
    ensures Normalize(path) == path
  {
  }

  /** A trailing slash or backslash does not change the normal form, unless it is the whole path. */
  lemma TrailingSeparator(path: string, c: char)
    requires c == '/' || c == '\\'
    ensures Normalize(path + [c]) == Normalize(path) <==> path != ""
  {
    var longer := path + [c];
    assert longer[..|longer| - 1] == path && TrimEnd(longer) == TrimEnd(path);
    if path != "" { assert longer[..1] == path[..1]; }
  }

  /**
   * What a pattern selects: without `*`, `?` and `[` the path with the same normal form, otherwise the
   * paths whose normal form fits it.
   */
  lemma SelectsExactly(input: string, fold: CaseFold, stored: string)
    ensures '*' !in input && '?' !in input && '[' !in input ==>
              (Selects(input, fold, stored) <==> Fold(fold, Normalize(input)) == Fold(fold, Normalize(stored)))
    ensures '*' in input || '?' in input || '[' in input ==>
              (Selects(input, fold, stored) <==> Terminated(Fold(fold, input)) && Fits(Fold(fold, input), Fold(fold, Normalize(stored))))
  {
  }

  /** A directory followed by a slash and a star selects what is below it; by a question mark, names of one character. */
  lemma BelowDirectory(directory: string, stored: string)
    requires forall c <- directory :: c !in "*?["
    ensures Selects(directory + "/*", map[], stored) <==> directory + "/" <= Normalize(stored)
    ensures Selects(directory + "/?", map[], stored) <==>
              directory + "/" <= Normalize(stored) && |Normalize(stored)| == |directory| + 2
  {
    var prefix := directory + "/";
    assert directory + "/*" == prefix + "*" && directory + "/?" == prefix + "?";
    PrefixFits(prefix, Normalize(stored));
    assert (prefix + "*")[|prefix|] == '*' && (prefix + "?")[|prefix|] == '?';
    forall i: nat ensures !Unterminated(prefix + "*", i) && !Unterminated(prefix + "?", i) {
      if i < |directory| { assert directory[i] in directory; }
    }
  }

  predicate EndsSeparated(s: string) {
    s != "" && Separator(s[|s| - 1])
  }

  /** Folding the case turns no other character into a separator. */
  predicate SparesSeparators(fold: CaseFold) {
    forall s <- fold :: EndsSeparated(fold[s]) ==> EndsSeparated(s)
  }

  /**
   * Patterns with glob characters keep their trailing separators, stored paths lose them: such a
   * pattern selects nothing but a path of separators only.
   */
  lemma GlobKeepsSeparator(input: string, fold: CaseFold, stored: string)
    requires HasMeta(input) && EndsSeparated(Fold(fold, input)) && SparesSeparators(fold)
    requires Selects(input, fold, stored)
    ensures |Normalize(stored)| == 1 && Separator(Normalize(stored)[0])
  {
    var text := Fold(fold, input);
    NormalForm(stored);
    EndsAlike(text, Fold(fold, Normalize(stored)), text[|text| - 1]);
    assert EndsSeparated(Normalize(stored));
  }
}
