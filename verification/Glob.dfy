/** Glob patterns over paths: parsing, and matching by a set of token positions. */
module Glob {
  import opened Basics

  datatype Token =
    | AnySequence
    | AnyCharacter
    | CharacterClass(negated: bool, ranges: seq<(char, char)>)
    | Literal(character: char)

  predicate Contained(ranges: seq<(char, char)>, c: char) {
    exists i | 0 <= i < |ranges| :: ranges[i].0 <= c <= ranges[i].1
  }

  /** A token other than `*` takes exactly one character. */
  predicate Accepts(token: Token, c: char) {
    match token
    case AnySequence => false
    case AnyCharacter => true
    case CharacterClass(negated, ranges) => Contained(ranges, c) != negated
    case Literal(character) => character == c
  }

  /** The strings a single token stands for. */
  predicate Piece(token: Token, s: string) {
    token.AnySequence? || (|s| == 1 && Accepts(token, s[0]))
  }

  /** The value splits into one piece for every token, in order. */
  ghost predicate Matches(tokens: seq<Token>, value: string)
    decreases |tokens|
  {
    if tokens == [] then value == ""
    else
      var front, last := tokens[..|tokens| - 1], tokens[|tokens| - 1];
      exists k: nat | k <= |value| :: Matches(front, value[..k]) && Piece(last, value[k..])
  }

  lemma MatchesEmpty(tokens: seq<Token>)
    requires tokens != []
    ensures var front, last := tokens[..|tokens| - 1], tokens[|tokens| - 1];
            Matches(tokens, "") <==> last.AnySequence? && Matches(front, "")
  {
    var value: string := "";
    assert value[..0] == "" && value[0..] == "";
  }

  /** How one more character changes the match. */
  lemma MatchesNext(tokens: seq<Token>, p: string, c: char)
    requires tokens != []
    ensures var front, last := tokens[..|tokens| - 1], tokens[|tokens| - 1];
            Matches(tokens, p + [c]) <==>
              if last.AnySequence? then Matches(tokens, p) || Matches(front, p + [c])
              else Matches(front, p) && Accepts(last, c)
  {
    var front, last, value := tokens[..|tokens| - 1], tokens[|tokens| - 1], p + [c];
    assert value[..|p|] == p && value[|p|..] == [c] && value[..|value|] == value && value[|value|..] == "";
    forall k: nat | k <= |p| ensures value[..k] == p[..k] {}
    if last.AnySequence? {
      if Matches(tokens, value) {
        var k: nat :| k <= |value| && Matches(front, value[..k]) && Piece(last, value[k..]);
        if k <= |p| { assert Matches(front, p[..k]) && Piece(last, p[k..]); }
      }
      if Matches(tokens, p) {
        var k: nat :| k <= |p| && Matches(front, p[..k]) && Piece(last, p[k..]);
        assert Matches(front, value[..k]) && Piece(last, value[k..]);
      }
      if Matches(front, value) { assert Matches(front, value[..|value|]) && Piece(last, value[|value|..]); }
    } else {
      if Matches(tokens, value) {
        var k: nat :| k <= |value| && Matches(front, value[..k]) && Piece(last, value[k..]);
        assert k == |p|;
      }
      if Matches(front, p) && Accepts(last, c) { assert Matches(front, value[..|p|]) && Piece(last, value[|p|..]); }
    }
  }

  /**
   * What the matcher's position `i` stands for after the prefix `p`: the first `i` tokens match
   * it, or, when token `i` is a `*`, the first `i + 1` do.
   */
  ghost predicate Live(tokens: seq<Token>, i: nat, p: string)
    requires i <= |tokens|
  {
    if i < |tokens| && tokens[i].AnySequence? then Matches(tokens[..i + 1], p) else Matches(tokens[..i], p)
  }

  /** A position is live before any character when only `*` precede it. */
  lemma LiveEmpty(tokens: seq<Token>, i: nat)
    requires i <= |tokens|
    ensures Live(tokens, i, "") <==> i == 0 || (tokens[i - 1].AnySequence? && Live(tokens, i - 1, ""))
  {
    if i < |tokens| {
      assert tokens[..i + 1][..i] == tokens[..i];
      MatchesEmpty(tokens[..i + 1]);
    }
    if i > 0 {
      assert tokens[..i][..i - 1] == tokens[..i - 1];
      MatchesEmpty(tokens[..i]);
    }
  }

  /** How one character moves the live positions. */
  lemma LiveNext(tokens: seq<Token>, i: nat, p: string, c: char)
    requires i <= |tokens|
    ensures Live(tokens, i, p + [c]) <==>
              || (i < |tokens| && tokens[i].AnySequence? && Live(tokens, i, p))
              || (i > 0 && Accepts(tokens[i - 1], c) && Live(tokens, i - 1, p))
              || (i > 0 && tokens[i - 1].AnySequence? && Live(tokens, i - 1, p + [c]))
  {
    if i < |tokens| {
      assert tokens[..i + 1][..i] == tokens[..i];
      MatchesNext(tokens[..i + 1], p, c);
    }
    if i > 0 {
      assert tokens[..i][..i - 1] == tokens[..i - 1];
      MatchesNext(tokens[..i], p, c);
    }
  }

  /** Marks the position after every `*` that is marked itself, from the front. */
  method ExpandStars(tokens: seq<Token>, states: array<bool>)
    requires states.Length == |tokens| + 1
    modifies states
    ensures states[0] == old(states[0])
    ensures forall i | 0 < i <= |tokens| :: states[i] <==> old(states[i]) || (tokens[i - 1].AnySequence? && states[i - 1])
  {
    for index := 0 to |tokens|
      invariant states[0] == old(states[0])
      invariant forall i | 0 < i <= index :: states[i] <==> old(states[i]) || (tokens[i - 1].AnySequence? && states[i - 1])
      invariant forall i | index < i <= |tokens| :: states[i] == old(states[i])
    {
      if states[index] && tokens[index].AnySequence? {
        states[index + 1] := true;
      }
    }
  }

  /** The positions one character leads to, before the expansion of `*`. */
  method Advance(tokens: seq<Token>, states: array<bool>, c: char) returns (next: array<bool>)
    requires states.Length == |tokens| + 1
    ensures fresh(next) && next.Length == |tokens| + 1
    ensures forall i {:trigger next[i]} | 0 <= i <= |tokens| ::
              next[i] <==> (i < |tokens| && tokens[i].AnySequence? && states[i])
                           || (i > 0 && states[i - 1] && Accepts(tokens[i - 1], c))
  {
    next := new bool[|tokens| + 1](_ => false);
    for index := 0 to |tokens|
      invariant forall i {:trigger next[i]} | 0 <= i <= |tokens| ::
        next[i] <==> (i < index && tokens[i].AnySequence? && states[i])
                     || (0 < i <= index && states[i - 1] && Accepts(tokens[i - 1], c))
    {
      if states[index] {
        if tokens[index].AnySequence? {
          next[index] := true;
        } else if Accepts(tokens[index], c) {
          next[index + 1] := true;
        }
      }
    }
  }

  /** The positions marked are exactly the live ones. */
  ghost predicate Tracks(tokens: seq<Token>, states: array<bool>, p: string)
    reads states
  {
    states.Length == |tokens| + 1 && forall i | 0 <= i <= |tokens| :: states[i] <==> Live(tokens, i, p)
  }

  /** Whether a value matches, by the positions reachable after each character. */
  method GlobMatches(tokens: seq<Token>, value: string) returns (r: bool)
    ensures r <==> Matches(tokens, value)
  {
    var states := new bool[|tokens| + 1](i => i == 0);
    ExpandStars(tokens, states);
    forall i | 0 <= i <= |tokens| ensures states[i] <==> Live(tokens, i, "") { FirstTracked(tokens, states, i); }
    for n := 0 to |value|
      invariant fresh(states) && Tracks(tokens, states, value[..n])
    {
      var next := Advance(tokens, states, value[n]);
      ExpandStars(tokens, next);
      assert value[..n + 1] == value[..n] + [value[n]];
      forall i | 0 <= i <= |tokens| ensures next[i] <==> Live(tokens, i, value[..n + 1]) {
        NextTracked(tokens, states, next, value[..n], value[n], i);
      }
      states := next;
    }
    assert value[..|value|] == value && tokens[..|tokens|] == tokens;
    assert Tracks(tokens, states, value);
    ghost var before := states[..];
    ExpandStars(tokens, states);
    Settled(tokens, before, states[..], value, |tokens|);
    r := states[|tokens|];
  }

  lemma {:induction false} FirstTracked(tokens: seq<Token>, states: array<bool>, i: nat)
    requires states.Length == |tokens| + 1 && i <= |tokens| && states[0]
    requires forall j | 0 < j <= |tokens| :: states[j] <==> tokens[j - 1].AnySequence? && states[j - 1]
    ensures states[i] <==> Live(tokens, i, "")
  {
    LiveEmpty(tokens, i);
    if i > 0 { FirstTracked(tokens, states, i - 1); }
  }

  lemma {:induction false} NextTracked(tokens: seq<Token>, states: array<bool>, next: array<bool>, p: string, c: char, i: nat)
    requires Tracks(tokens, states, p) && next.Length == |tokens| + 1 && i <= |tokens|
    requires next[0] <==> |tokens| > 0 && tokens[0].AnySequence? && states[0]
    requires forall j | 0 < j <= |tokens| :: next[j] <==>
               || (j < |tokens| && tokens[j].AnySequence? && states[j])
               || (states[j - 1] && Accepts(tokens[j - 1], c))
               || (tokens[j - 1].AnySequence? && next[j - 1])
    ensures next[i] <==> Live(tokens, i, p + [c])
  {
    LiveNext(tokens, i, p, c);
    if i > 0 { NextTracked(tokens, states, next, p, c, i - 1); }
  }

  /** Expanding the stars of live positions changes nothing. */
  lemma {:induction false} Settled(tokens: seq<Token>, before: seq<bool>, after: seq<bool>, p: string, i: nat)
    requires |before| == |after| == |tokens| + 1 && i <= |tokens|
    requires forall j | 0 <= j <= |tokens| :: before[j] <==> Live(tokens, j, p)
    requires after[0] == before[0]
    requires forall j | 0 < j <= |tokens| :: after[j] <==> before[j] || (tokens[j - 1].AnySequence? && after[j - 1])
    ensures after[i] == before[i]
  {
    if i > 0 {
      Settled(tokens, before, after, p, i - 1);
      if tokens[i - 1].AnySequence? && before[i - 1] { LiveSpreads(tokens, i, p); }
    }
  }

  lemma LiveSpreads(tokens: seq<Token>, i: nat, p: string)
    requires 0 < i <= |tokens| && tokens[i - 1].AnySequence? && Live(tokens, i - 1, p)
    ensures Live(tokens, i, p)
  {
    if i < |tokens| && tokens[i].AnySequence? {
      assert tokens[..i + 1][..i] == tokens[..i];
      assert p[..|p|] == p && Matches(tokens[..i], p[..|p|]) && Piece(tokens[i], p[|p|..]);
    }
  }

  /** After `ab` the position before the `*` of the pattern `a*` is still marked, though `a` does not match `ab`. */
  lemma PositionBeforeStar()
    ensures var tokens := [Literal('a'), AnySequence];
            Live(tokens, 1, "ab") && !Matches(tokens[..1], "ab")
  {
    var tokens := [Literal('a'), AnySequence];
    var first := tokens[..1];
    assert first[..0] == [] && "a" == [] + ['a'] && "ab" == "a" + ['b'];
    MatchesNext(first, "", 'a');
    MatchesNext(first, "a", 'b');
    assert tokens[..2][..1] == first;
    MatchesNext(tokens[..2], "a", 'b');
    MatchesNext(tokens[..2], "", 'a');
  }

  ghost predicate AcceptsNone(token: Token) {
    !token.AnySequence? && forall c :: !Accepts(token, c)
  }

  ghost predicate AcceptsEvery(token: Token) {
    forall c :: Accepts(token, c)
  }

  /** Whatever follows a match is a match: nothing matches, or a `*` is followed by tokens that take any character. */
  ghost predicate Absorbing(tokens: seq<Token>) {
    || (exists j | 0 <= j < |tokens| :: AcceptsNone(tokens[j]))
    || (exists j | 0 <= j < |tokens| :: tokens[j].AnySequence? && forall m | j < m < |tokens| :: AcceptsEvery(tokens[m]))
  }

  /** A match of tokens, as the matches of its front. */
  lemma SplitLast(tokens: seq<Token>, value: string)
    requires tokens != [] && value != ""
    ensures var front, last, p, c := tokens[..|tokens| - 1], tokens[|tokens| - 1], value[..|value| - 1], value[|value| - 1];
            Matches(tokens, value) <==>
              if last.AnySequence? then Matches(tokens, p) || Matches(front, value) else Matches(front, p) && Accepts(last, c)
  {
    var p, c := value[..|value| - 1], value[|value| - 1];
    assert value == p + [c];
    MatchesNext(tokens, p, c);
  }

  lemma {:induction false} NothingMatches(tokens: seq<Token>, j: nat, value: string)
    requires j < |tokens| && AcceptsNone(tokens[j])
    ensures !Matches(tokens, value)
    decreases |tokens|, |value|
  {
    var front := tokens[..|tokens| - 1];
    if value == "" {
      MatchesEmpty(tokens);
      if j < |front| { NothingMatches(front, j, value); }
    } else {
      SplitLast(tokens, value);
      if j < |front| {
        NothingMatches(front, j, value);
        NothingMatches(front, j, value[..|value| - 1]);
        NothingMatches(tokens, j, value[..|value| - 1]);
      }
    }
  }

  lemma {:induction false} Extends(tokens: seq<Token>, j: nat, p: string, c: char)
    requires j < |tokens| && tokens[j].AnySequence? && forall m | j < m < |tokens| :: AcceptsEvery(tokens[m])
    requires Matches(tokens, p)
    ensures Matches(tokens, p + [c])
    decreases |tokens|
  {
    MatchesNext(tokens, p, c);
    if j < |tokens| - 1 {
      assert AcceptsEvery(tokens[|tokens| - 1]) && Accepts(tokens[|tokens| - 1], c);
      if p == "" { MatchesEmpty(tokens); }
      SplitLast(tokens, p);
      var q, d := p[..|p| - 1], p[|p| - 1];
      Extends(tokens[..|tokens| - 1], j, q, d);
      assert p == q + [d];
    }
  }

  lemma {:induction false} Absorbed(front: seq<Token>, value: string)
    requires Absorbing(front)
    ensures Matches(front + [AnySequence], value) <==> Matches(front, value)
    decreases |value|
  {
    var all := front + [AnySequence];
    assert all[..|front|] == front;
    if value == "" {
      MatchesEmpty(all);
    } else {
      var p, c := value[..|value| - 1], value[|value| - 1];
      assert value == p + [c];
      SplitLast(all, value);
      Absorbed(front, p);
      if Matches(front, p) {
        if j :| 0 <= j < |front| && AcceptsNone(front[j]) {
          NothingMatches(front, j, p);
        } else {
          var j :| 0 <= j < |front| && front[j].AnySequence? && forall m | j < m < |front| :: AcceptsEvery(front[m]);
          Extends(front, j, p, c);
        }
      }
    }
  }

  lemma {:induction false} SomeMatch(tokens: seq<Token>) returns (value: string)
    requires forall j | 0 <= j < |tokens| :: !AcceptsNone(tokens[j])
    ensures Matches(tokens, value)
  {
    if tokens == [] {
      value := "";
    } else {
      var front, last := tokens[..|tokens| - 1], tokens[|tokens| - 1];
      var p := SomeMatch(front);
      assert p[..|p|] == p;
      if last.AnySequence? {
        value := p;
        assert Matches(front, value[..|p|]) && Piece(last, value[|p|..]);
      } else {
        var c :| Accepts(last, c);
        MatchesNext(tokens, p, c);
        value := p + [c];
      }
    }
  }

  /** Behind the last `*`, each token takes the character as far from the end as itself. */
  lemma {:induction false} TailTaken(tokens: seq<Token>, value: string, m: nat)
    requires m <= |tokens| && Matches(tokens, value) && forall j | m <= j < |tokens| :: !tokens[j].AnySequence?
    ensures |value| >= |tokens| - m
    ensures m < |tokens| ==> Accepts(tokens[m], value[|value| - (|tokens| - m)])
    ensures m == 0 ==> |value| == |tokens|
    decreases |tokens|
  {
    if m < |tokens| {
      if value == "" { MatchesEmpty(tokens); }
      SplitLast(tokens, value);
      TailTaken(tokens[..|tokens| - 1], value[..|value| - 1], m);
    }
  }

  lemma {:induction false} StarTakes(front: seq<Token>, value: string, more: string)
    requires Matches(front, value)
    ensures Matches(front + [AnySequence], value + more)
  {
    var all := front + [AnySequence];
    assert all[..|front|] == front && (value + more)[..|value|] == value;
    assert Matches(front, (value + more)[..|value|]) && Piece(AnySequence, (value + more)[|value|..]);
  }

  /** The last `*` of some tokens, if there is one. */
  lemma {:induction false} LastStar(tokens: seq<Token>) returns (start: nat)
    ensures start <= |tokens| && forall j | start <= j < |tokens| :: !tokens[j].AnySequence?
    ensures start > 0 ==> tokens[start - 1].AnySequence?
  {
    start := |tokens|;
    while start > 0 && !tokens[start - 1].AnySequence?
      invariant start <= |tokens| && forall j | start <= j < |tokens| :: !tokens[j].AnySequence?
    {
      start := start - 1;
    }
  }

  /** Tokens that absorb nothing have a match with a continuation that is none. */
  lemma Unabsorbed(front: seq<Token>) returns (value: string)
    requires !Absorbing(front)
    ensures Matches(front + [AnySequence], value) && !Matches(front, value)
  {
    var match0 := SomeMatch(front);
    var start := LastStar(front);
    if start == 0 {
      value := match0 + ['x'];
      StarTakes(front, match0, ['x']);
      TailTaken(front, match0, 0);
      if Matches(front, value) { TailTaken(front, value, 0); }
    } else {
      assert !forall m | start - 1 < m < |front| :: AcceptsEvery(front[m]);
      var m :| start - 1 < m < |front| && !AcceptsEvery(front[m]);
      var c :| !Accepts(front[m], c);
      var more := seq(|front|, _ => c);
      value := match0 + more;
      StarTakes(front, match0, more);
      if Matches(front, value) { TailTaken(front, value, m); }
    }
  }

  /**
   * A position is marked exactly when the tokens before it match, for every prefix, just in these
   * cases: it is the last one, no `*` follows it, or the tokens before it absorb what follows a match.
   */
  lemma MarkMeansMatch(tokens: seq<Token>, i: nat)
    requires i <= |tokens|
    ensures (forall p :: Live(tokens, i, p) <==> Matches(tokens[..i], p)) <==>
              i == |tokens| || !tokens[i].AnySequence? || Absorbing(tokens[..i])
  {
    if i < |tokens| && tokens[i].AnySequence? {
      var front := tokens[..i];
      assert tokens[..i + 1] == front + [AnySequence];
      if Absorbing(front) {
        forall p ensures Live(tokens, i, p) <==> Matches(front, p) { Absorbed(front, p); }
      } else {
        var value := Unabsorbed(front);
        assert Live(tokens, i, value) && !Matches(tokens[..i], value);
      }
    }
  }

  /** The first position of `c` in `s` from `start` on. */
  function Find(s: string, c: char, start: nat): (r: Option<nat>)
    requires start <= |s|
    ensures r.None? <==> c !in s[start..]
    ensures r.Some? ==> start <= r.value < |s| && s[r.value] == c && c !in s[start..r.value]
    decreases |s| - start
  {
    if start == |s| then None
    else if s[start] == c then Some(start)
    else
      var r := Find(s, c, start + 1);
      assert s[start..] == [s[start]] + s[start + 1..];
      assert r.Some? ==> s[start..r.value] == [s[start]] + s[start + 1..r.value];
      r
  }

  /** The ranges a class lists: `a-z` triples, and single characters elsewhere. */
  function Ranges(content: string, index: nat): seq<(char, char)>
    requires index <= |content|
    decreases |content| - index
  {
    if index == |content| then []
    else if index + 2 < |content| && content[index + 1] == '-'
    then [(content[index], content[index + 2])] + Ranges(content, index + 3)
    else [(content[index], content[index])] + Ranges(content, index + 1)
  }

  /** What a class lists: a single character, or two characters with a hyphen between them. */
  datatype Item = Single(character: char) | Span(first: char, last: char)

  ghost function Written(items: seq<Item>): string {
    if items == [] then ""
    else (match items[0] case Single(c) => [c] case Span(a, b) => [a, '-', b]) + Written(items[1..])
  }

  /** No single character is followed by a hyphen, unless that is the end. */
  ghost predicate Plain(items: seq<Item>) {
    items != [] ==> Plain(items[1..]) && (items[0].Single? ==> !("-" < Written(items[1..])))
  }

  ghost function Bounds(items: seq<Item>): seq<(char, char)> {
    seq(|items|, i requires 0 <= i < |items| => match items[i] case Single(c) => (c, c) case Span(a, b) => (a, b))
  }

  lemma {:induction false} RangesOfSuffix(content: string, index: nat)
    requires index <= |content|
    ensures Ranges(content, index) == Ranges(content[index..], 0)
    decreases |content| - index
  {
    var suffix := content[index..];
    if index + 2 < |content| && content[index + 1] == '-' {
      RangesOfSuffix(content, index + 3);
      RangesOfSuffix(suffix, 3);
      assert suffix[3..] == content[index + 3..];
    } else if index < |content| {
      RangesOfSuffix(content, index + 1);
      RangesOfSuffix(suffix, 1);
      assert suffix[1..] == content[index + 1..];
    }
  }

  lemma {:induction false} RangesOfItems(items: seq<Item>)
    requires Plain(items)
    ensures Ranges(Written(items), 0) == Bounds(items)
  {
    if items != [] {
      var rest, content := Written(items[1..]), Written(items);
      RangesOfItems(items[1..]);
      var width := if items[0].Single? then 1 else 3;
      assert content[width..] == rest;
      RangesOfSuffix(content, width);
      assert Bounds(items) == [Bounds(items)[0]] + Bounds(items[1..]);
    }
  }

  lemma {:induction false} ItemsOf(content: string) returns (items: seq<Item>)
    ensures Plain(items) && Written(items) == content
  {
    if content == "" {
      items := [];
    } else if |content| > 2 && content[1] == '-' {
      var rest := ItemsOf(content[3..]);
      items := [Span(content[0], content[2])] + rest;
      assert items[1..] == rest && content == [content[0], '-', content[2]] + content[3..];
    } else {
      var rest := ItemsOf(content[1..]);
      items := [Single(content[0])] + rest;
      assert items[1..] == rest && content == [content[0]] + content[1..];
    }
  }

  /** A class lists the bounds of the one way to write its content as single characters and spans. */
  lemma RangesExact(content: string, ranges: seq<(char, char)>)
    ensures ranges == Ranges(content, 0) <==> exists items :: Plain(items) && Written(items) == content && Bounds(items) == ranges
  {
    var items := ItemsOf(content);
    RangesOfItems(items);
    if other :| Plain(other) && Written(other) == content && Bounds(other) == ranges {
      RangesOfItems(other);
    }
  }

  /** Without a hyphen a class contains exactly the characters of its content. */
  lemma {:induction false} WithoutHyphen(content: string, c: char)
    requires '-' !in content
    ensures Contained(Ranges(content, 0), c) <==> c in content
    decreases |content|
  {
    if content != "" {
      RangesOfSuffix(content, 1);
      WithoutHyphen(content[1..], c);
      var ranges, rest := Ranges(content, 0), Ranges(content[1..], 0);
      assert ranges == [(content[0], content[0])] + rest;
      if i :| 0 <= i < |rest| && rest[i].0 <= c <= rest[i].1 { assert ranges[i + 1] == rest[i]; }
      if i :| 0 <= i < |ranges| && ranges[i].0 <= c <= ranges[i].1 { assert i > 0 ==> ranges[i] == rest[i - 1]; }
      assert ranges[0] == (content[0], content[0]);
      assert content == [content[0]] + content[1..];
    }
  }

  predicate Negates(content: string) {
    content != "" && (content[0] == '!' || content[0] == '^')
  }

  function Class(content: string): Token {
    if Negates(content) then CharacterClass(true, Ranges(content[1..], 0)) else CharacterClass(false, Ranges(content, 0))
  }

  /** The tokens of a pattern from `index` on, one for every character or class. */
  function Tokens(pattern: string, index: nat): Option<seq<Token>>
    requires index <= |pattern|
    decreases |pattern| - index
  {
    if index == |pattern| then Some([])
    else match pattern[index]
      case '*' => Prepend(AnySequence, Tokens(pattern, index + 1))
      case '?' => Prepend(AnyCharacter, Tokens(pattern, index + 1))
      case '[' =>
        (match Find(pattern, ']', index + 1)
         case None => None
         case Some(closing) => Prepend(Class(pattern[index + 1..closing]), Tokens(pattern, closing + 1)))
      case literal => Prepend(Literal(literal), Tokens(pattern, index + 1))
  }

  function Prepend(token: Token, rest: Option<seq<Token>>): Option<seq<Token>> {
    match rest
    case None => None
    case Some(tokens) => Some([token] + tokens)
  }

  /** An opening bracket that no closing bracket follows. */
  ghost predicate Unterminated(pattern: string, i: nat) {
    i < |pattern| && pattern[i] == '[' && ']' !in pattern[i + 1..]
  }

  /** A pattern is malformed exactly when some opening bracket has no closing bracket after it. */
  lemma {:induction false} MalformedExactly(pattern: string, index: nat)
    requires index <= |pattern|
    ensures Tokens(pattern, index).None? <==> exists i: nat | index <= i :: Unterminated(pattern, i)
    decreases |pattern| - index
  {
    if index < |pattern| {
      if pattern[index] == '[' {
        var found := Find(pattern, ']', index + 1);
        if found.None? {
          assert Unterminated(pattern, index);
        } else {
          MalformedExactly(pattern, found.value + 1);
          forall i: nat | index <= i <= found.value ensures !Unterminated(pattern, i) {
            if i < found.value { assert pattern[i + 1..][found.value - i - 1] == ']'; }
          }
        }
      } else {
        MalformedExactly(pattern, index + 1);
      }
    }
  }

  /** The content of a class lists a character: by itself, or within a span of two with a hyphen between. */
  ghost predicate Lists(content: string, c: char) {
    if content == "" then false
    else if |content| > 2 && content[1] == '-' then content[0] <= c <= content[2] || Lists(content[3..], c)
    else c == content[0] || Lists(content[1..], c)
  }

  /** What stands between the brackets: `!` or `^` in front excludes the characters listed. */
  ghost predicate Admits(content: string, c: char) {
    if content != "" && content[0] in "!^" then !Lists(content[1..], c) else Lists(content, c)
  }

  /** The bracket at the front of the pattern is closed at `at`, and not before. */
  ghost predicate ClosesAt(pattern: string, at: nat) {
    0 < at < |pattern| && pattern[at] == ']' && ']' !in pattern[1..at]
  }

  /**
   * What a pattern means, read off its text: `*` is any string, `?` any character, brackets one
   * character they admit, and any other character itself.
   */
  ghost predicate Fits(pattern: string, value: string)
    decreases |pattern|
  {
    if pattern == "" then value == ""
    else if pattern[0] == '*' then exists k: nat | k <= |value| :: Fits(pattern[1..], value[k..])
    else if value == "" then false
    else if pattern[0] == '?' then Fits(pattern[1..], value[1..])
    else if pattern[0] == '[' then
      exists at: nat | ClosesAt(pattern, at) :: Admits(pattern[1..at], value[0]) && Fits(pattern[at + 1..], value[1..])
    else value[0] == pattern[0] && Fits(pattern[1..], value[1..])
  }

  lemma {:induction false} ListsRanges(content: string, c: char)
    ensures Lists(content, c) <==> Contained(Ranges(content, 0), c)
    decreases |content|
  {
    if content != "" {
      var width := if |content| > 2 && content[1] == '-' then 3 else 1;
      ListsRanges(content[width..], c);
      RangesOfSuffix(content, width);
      var ranges, rest := Ranges(content, 0), Ranges(content[width..], 0);
      assert ranges == [ranges[0]] + rest;
      ContainedFirst(ranges[0], rest, c);
    }
  }

  lemma ContainedFirst(first: (char, char), rest: seq<(char, char)>, c: char)
    ensures Contained([first] + rest, c) <==> first.0 <= c <= first.1 || Contained(rest, c)
  {
    var all := [first] + rest;
    if i :| 0 <= i < |rest| && rest[i].0 <= c <= rest[i].1 { assert all[i + 1] == rest[i]; }
    if first.0 <= c <= first.1 { assert all[0] == first; }
  }

  lemma ClassAdmits(content: string, c: char)
    ensures Accepts(Class(content), c) <==> Admits(content, c)
  {
    ListsRanges(content, c);
    if content != "" { ListsRanges(content[1..], c); }
  }

  lemma ClosesOnce(pattern: string, a: nat, b: nat)
    requires ClosesAt(pattern, a) && ClosesAt(pattern, b)
    ensures a == b
  {
    assert forall i | 1 <= i < a :: pattern[1..a][i - 1] == pattern[i];
    assert forall i | 1 <= i < b :: pattern[1..b][i - 1] == pattern[i];
  }

  lemma MatchesLast(tokens: seq<Token>, token: Token, value: string)
    ensures Matches(tokens + [token], value) <==>
              exists k: nat | k <= |value| :: Matches(tokens, value[..k]) && Piece(token, value[k..])
  {
    var all := tokens + [token];
    assert all[..|all| - 1] == tokens;
  }

  lemma MatchesAlone(token: Token, value: string)
    ensures Matches([token], value) <==> Piece(token, value)
  {
    MatchesLast([], token, value);
    assert [] + [token] == [token] && value[0..] == value;
    if Piece(token, value) { assert Matches([], value[..0]) && Piece(token, value[0..]); }
  }

  /** The first `k` characters go to the first token, the others to the rest. */
  ghost predicate Parts(first: Token, rest: seq<Token>, value: string, k: nat) {
    k <= |value| && Piece(first, value[..k]) && Matches(rest, value[k..])
  }

  lemma PartsJoin(first: Token, front: seq<Token>, last: Token, value: string, k: nat, m: nat)
    requires m <= |value| && Parts(first, front, value[..m], k) && Piece(last, value[m..])
    ensures Parts(first, front + [last], value, k)
  {
    assert value[..m][..k] == value[..k] && value[..m][k..] == value[k..][..m - k] && value[m..] == value[k..][m - k..];
    MatchesLast(front, last, value[k..]);
  }

  lemma PartsSplit(first: Token, front: seq<Token>, last: Token, value: string, k: nat) returns (m: nat)
    requires Parts(first, front + [last], value, k)
    ensures m <= |value| && Parts(first, front, value[..m], k) && Piece(last, value[m..])
  {
    MatchesLast(front, last, value[k..]);
    var n: nat :| n <= |value| - k && Matches(front, value[k..][..n]) && Piece(last, value[k..][n..]);
    m := k + n;
    assert value[..m][..k] == value[..k] && value[..m][k..] == value[k..][..n] && value[m..] == value[k..][n..];
  }

  /** A match may as well be peeled from the front. */
  lemma {:induction false} MatchesFirst(first: Token, rest: seq<Token>, value: string)
    ensures Matches([first] + rest, value) <==> exists k: nat :: Parts(first, rest, value, k)
    decreases |rest|
  {
    if rest == [] {
      MatchesAlone(first, value);
      assert [first] + rest == [first] && value[..|value|] == value && value[|value|..] == "";
      if Piece(first, value) { assert Parts(first, rest, value, |value|); }
      if k: nat :| Parts(first, rest, value, k) { assert value[..k] == value; }
    } else {
      MatchesFirstOf(first, rest[..|rest| - 1], rest[|rest| - 1], value);
      assert rest[..|rest| - 1] + [rest[|rest| - 1]] == rest;
    }
  }

  lemma {:induction false} MatchesFirstOf(first: Token, front: seq<Token>, last: Token, value: string)
    ensures Matches([first] + (front + [last]), value) <==> exists k: nat :: Parts(first, front + [last], value, k)
    decreases |front| + 1, 0
  {
    assert [first] + (front + [last]) == ([first] + front) + [last];
    MatchesLast([first] + front, last, value);
    if m: nat :| m <= |value| && Matches([first] + front, value[..m]) && Piece(last, value[m..]) {
      MatchesFirst(first, front, value[..m]);
      var k: nat :| Parts(first, front, value[..m], k);
      PartsJoin(first, front, last, value, k, m);
    }
    if k: nat :| Parts(first, front + [last], value, k) {
      var m := PartsSplit(first, front, last, value, k);
      MatchesFirst(first, front, value[..m]);
    }
  }

  /** For a token of one character the front is that character. */
  lemma MatchesOne(first: Token, rest: seq<Token>, value: string)
    requires !first.AnySequence?
    ensures Matches([first] + rest, value) <==> value != "" && Accepts(first, value[0]) && Matches(rest, value[1..])
  {
    MatchesFirst(first, rest, value);
    if value != "" { assert value[..1] == [value[0]]; }
    if value != "" && Accepts(first, value[0]) && Matches(rest, value[1..]) { assert Parts(first, rest, value, 1); }
  }

  lemma MatchesAnything(rest: seq<Token>, value: string)
    ensures Matches([AnySequence] + rest, value) <==> exists k: nat | k <= |value| :: Matches(rest, value[k..])
  {
    MatchesFirst(AnySequence, rest, value);
    if k: nat :| k <= |value| && Matches(rest, value[k..]) { assert Parts(AnySequence, rest, value, k); }
  }

  /** The tokens of a pattern match what its text means. */
  lemma {:induction false} TokensFit(pattern: string, index: nat, tokens: seq<Token>, value: string)
    requires index <= |pattern| && Tokens(pattern, index) == Some(tokens)
    ensures Matches(tokens, value) <==> Fits(pattern[index..], value)
    decreases |pattern| - index
  {
    if index < |pattern| {
      var text := pattern[index..];
      assert text[0] == pattern[index] && text[1..] == pattern[index + 1..];
      if text[0] == '[' {
        ClassFits(pattern, index, tokens, value);
      } else {
        var rest := Tokens(pattern, index + 1).value;
        if text[0] == '*' {
          MatchesAnything(rest, value);
          forall k: nat | k <= |value| ensures Matches(rest, value[k..]) <==> Fits(text[1..], value[k..]) {
            TokensFit(pattern, index + 1, rest, value[k..]);
          }
        } else {
          MatchesOne(tokens[0], rest, value);
          if value != "" { TokensFit(pattern, index + 1, rest, value[1..]); }
        }
      }
    }
  }

  lemma {:induction false} ClassFits(pattern: string, index: nat, tokens: seq<Token>, value: string)
    requires index < |pattern| && pattern[index] == '[' && Tokens(pattern, index) == Some(tokens)
    ensures Matches(tokens, value) <==> Fits(pattern[index..], value)
    decreases |pattern| - index, 0
  {
    var text := pattern[index..];
    var closing := Find(pattern, ']', index + 1).value;
    var at := closing - index;
    var content, rest := pattern[index + 1..closing], Tokens(pattern, closing + 1).value;
    assert text[1..at] == content && text[at + 1..] == pattern[closing + 1..] && text[at] == ']';
    assert ClosesAt(text, at);
    forall other: nat | ClosesAt(text, other) ensures other == at { ClosesOnce(text, at, other); }
    MatchesOne(tokens[0], rest, value);
    if value != "" {
      ClassAdmits(content, value[0]);
      TokensFit(pattern, closing + 1, rest, value[1..]);
    }
  }

  /** Runs of `*` become one. */
  ghost function Collapsed(tokens: seq<Token>): seq<Token> {
    if tokens == [] then []
    else Append(Collapsed(tokens[..|tokens| - 1]), tokens[|tokens| - 1])
  }

  ghost function Append(tokens: seq<Token>, token: Token): seq<Token> {
    if token.AnySequence? && tokens != [] && tokens[|tokens| - 1].AnySequence? then tokens else tokens + [token]
  }

  ghost predicate NoStarRun(tokens: seq<Token>) {
    forall i | 0 < i < |tokens| :: !(tokens[i - 1].AnySequence? && tokens[i].AnySequence?)
  }

  /** A second `*` in a row adds nothing. */
  lemma StarTwice(tokens: seq<Token>, value: string)
    requires tokens != [] && tokens[|tokens| - 1].AnySequence?
    ensures Matches(tokens + [AnySequence], value) <==> Matches(tokens, value)
  {
    MatchesLast(tokens, AnySequence, value);
    var front := tokens[..|tokens| - 1];
    if Matches(tokens, value) {
      assert value[..|value|] == value;
      assert Matches(tokens, value[..|value|]) && Piece(AnySequence, value[|value|..]);
    }
    if Matches(tokens + [AnySequence], value) {
      var k: nat :| k <= |value| && Matches(tokens, value[..k]);
      var j: nat :| j <= k && Matches(front, value[..k][..j]);
      assert value[..k][..j] == value[..j];
      assert Matches(front, value[..j]) && Piece(AnySequence, value[j..]);
    }
  }

  /** Collapsing keeps the language of a pattern. */
  lemma {:induction false} CollapseKeepsLanguage(tokens: seq<Token>, value: string)
    ensures Matches(Collapsed(tokens), value) <==> Matches(tokens, value)
    ensures NoStarRun(Collapsed(tokens))
    decreases |tokens|
  {
    if tokens != [] {
      var front, last := tokens[..|tokens| - 1], tokens[|tokens| - 1];
      var collapsed := Collapsed(front);
      CollapseKeepsLanguage(front, value);
      forall k: nat | k <= |value| ensures Matches(collapsed, value[..k]) <==> Matches(front, value[..k]) {
        CollapseKeepsLanguage(front, value[..k]);
      }
      assert front + [last] == tokens;
      MatchesLast(front, last, value);
      MatchesLast(collapsed, last, value);
      if last.AnySequence? && collapsed != [] && collapsed[|collapsed| - 1].AnySequence? {
        StarTwice(collapsed, value);
      }
    }
  }

  lemma Reassociate<T>(a: seq<T>, x: T, b: seq<T>)
    ensures a + ([x] + b) == (a + [x]) + b
  {
  }

  /** Reads the ranges of a class. */
  method ParseRanges(content: string) returns (ranges: seq<(char, char)>)
    ensures ranges == Ranges(content, 0)
  {
    ranges := [];
    var index := 0;
    while index < |content|
      invariant 0 <= index <= |content| && Ranges(content, 0) == ranges + Ranges(content, index)
    {
      var next, read := index + 1, (content[index], content[index]);
      if index + 2 < |content| && content[index + 1] == '-' {
        next, read := index + 3, (content[index], content[index + 2]);
      }
      Reassociate(ranges, read, Ranges(content, next));
      ranges, index := ranges + [read], next;
    }
  }

  /** Parses the class opened at `opening`, and says where the pattern goes on. */
  method ParseCharacterClass(pattern: string, opening: nat) returns (r: Option<(Token, nat)>)
    requires opening < |pattern|
    ensures var closing := Find(pattern, ']', opening + 1);
            match closing
            case None => r.None?
            case Some(at) => r == Some((Class(pattern[opening + 1..at]), at + 1))
  {
    var closing := Find(pattern, ']', opening + 1);
    if closing.None? {
      return None;
    }
    var content := pattern[opening + 1..closing.value];
    var negated := Negates(content);
    if negated {
      content := content[1..];
    }
    var ranges := ParseRanges(content);
    r := Some((CharacterClass(negated, ranges), closing.value + 1));
  }

  /** Tokens pushed so far, and those still to come. */
  ghost predicate Parsing(pattern: string, index: nat, raw: seq<Token>)
    requires index <= |pattern|
  {
    var rest := Tokens(pattern, index);
    Tokens(pattern, 0) == if rest.None? then None else Some(raw + rest.value)
  }

  lemma Parsed(pattern: string, index: nat, raw: seq<Token>, token: Token, next: nat)
    requires index < next <= |pattern| && Parsing(pattern, index, raw)
    requires Tokens(pattern, index) == Prepend(token, Tokens(pattern, next))
    ensures Parsing(pattern, next, raw + [token])
  {
    var rest := Tokens(pattern, next);
    if rest.Some? { Reassociate(raw, token, rest.value); }
  }

  lemma CollapsedNext(raw: seq<Token>, token: Token)
    ensures Collapsed(raw + [token]) == Append(Collapsed(raw), token)
  {
    assert (raw + [token])[..|raw|] == raw;
  }

  lemma ParsedAll(pattern: string, raw: seq<Token>, tokens: seq<Token>)
    requires Parsing(pattern, |pattern|, raw) && tokens == Collapsed(raw)
    ensures Tokens(pattern, 0).Some? && NoStarRun(tokens)
    ensures forall v :: Matches(tokens, v) <==> Matches(Tokens(pattern, 0).value, v)
    ensures forall v :: Matches(tokens, v) <==> Fits(pattern, v)
  {
    assert raw + [] == raw && pattern[0..] == pattern;
    forall v ensures Matches(raw, v) <==> Fits(pattern, v) { TokensFit(pattern, 0, raw, v); }
    forall v ensures Matches(tokens, v) <==> Matches(raw, v) { CollapseKeepsLanguage(raw, v); }
    CollapseKeepsLanguage(raw, "");
  }

  /** Every opening bracket has a closing one after it. */
  ghost predicate Terminated(pattern: string) {
    forall i: nat :: !Unterminated(pattern, i)
  }

  lemma TerminatedExactly(pattern: string)
    ensures Terminated(pattern) <==> Tokens(pattern, 0).Some?
  {
    MalformedExactly(pattern, 0);
    if i: nat :| Unterminated(pattern, i) { assert 0 <= i; }
  }

  /** Ordinary characters in front stand for themselves. */
  lemma {:induction false} FitsPrefix(prefix: string, pattern: string, value: string)
    requires forall c <- prefix :: c !in "*?["
    ensures Fits(prefix + pattern, value) <==> prefix <= value && Fits(pattern, value[|prefix|..])
    decreases |prefix|
  {
    if prefix == "" {
      assert prefix + pattern == pattern && value[0..] == value;
    } else {
      var all := prefix + pattern;
      assert all[0] == prefix[0] && prefix[0] in prefix && all[1..] == prefix[1..] + pattern;
      if value != "" {
        FitsPrefix(prefix[1..], pattern, value[1..]);
        assert prefix <= value <==> prefix[0] == value[0] && prefix[1..] <= value[1..];
        if prefix <= value { assert value[1..][|prefix| - 1..] == value[|prefix|..]; }
      }
    }
  }

  lemma LoneStar(value: string)
    ensures Fits("*", value)
  {
    assert "*"[1..] == "" && value[|value|..] == "" && Fits("", "");
  }

  lemma LoneQuestionMark(value: string)
    ensures Fits("?", value) <==> |value| == 1
  {
    assert "?"[1..] == "";
  }

  /** Ordinary characters before a `*` or a `?` at the end. */
  lemma PrefixFits(prefix: string, value: string)
    requires forall c <- prefix :: c !in "*?["
    ensures Fits(prefix + "*", value) <==> prefix <= value
    ensures Fits(prefix + "?", value) <==> prefix <= value && |value| == |prefix| + 1
  {
    FitsPrefix(prefix, "*", value);
    FitsPrefix(prefix, "?", value);
    if prefix <= value {
      LoneStar(value[|prefix|..]);
      LoneQuestionMark(value[|prefix|..]);
    }
  }

  ghost predicate EndsIn(value: string, c: char) {
    value != "" && value[|value| - 1] == c
  }

  lemma EndsInLater(value: string, k: nat, c: char)
    requires k < |value|
    ensures EndsIn(value[k..], c) <==> EndsIn(value, c)
  {
  }

  /** The text after the first piece of a pattern that ends in an ordinary character. */
  lemma PatternAfter(pattern: string, k: nat, c: char)
    requires k < |pattern| && EndsIn(pattern, c) && pattern[k] != c
    ensures |pattern[k + 1..]| < |pattern| && EndsIn(pattern[k + 1..], c)
  {
    EndsInLater(pattern, k + 1, c);
  }

  lemma ValueAfter(value: string, k: nat, c: char)
    requires k <= |value| && EndsIn(value[k..], c)
    ensures EndsIn(value, c)
  {
    EndsInLater(value, k, c);
  }

  /** A pattern that ends in an ordinary character fits only values that end in it. */
  lemma {:induction false} EndsAlike(pattern: string, value: string, c: char)
    requires EndsIn(pattern, c) && c !in "*?[]" && Fits(pattern, value)
    ensures EndsIn(value, c)
    decreases |pattern|
  {
    if pattern[0] == '*' {
      PatternAfter(pattern, 0, c);
      var k: nat :| k <= |value| && Fits(pattern[1..], value[k..]);
      EndsAlike(pattern[1..], value[k..], c);
      ValueAfter(value, k, c);
    } else if pattern[0] == '[' {
      var at: nat :| ClosesAt(pattern, at) && Fits(pattern[at + 1..], value[1..]);
      PatternAfter(pattern, at, c);
      EndsAlike(pattern[at + 1..], value[1..], c);
      ValueAfter(value, 1, c);
    } else if |pattern| > 1 {
      EndsInLater(pattern, 1, c);
      EndsAlike(pattern[1..], value[1..], c);
      ValueAfter(value, 1, c);
    }
  }

  /**
   * Parses a pattern. The result matches what the text of the pattern means, which is also what its
   * tokens match one by one, and has no run of `*`.
   */
  method ParseGlob(pattern: string) returns (r: Result<seq<Token>>)
    ensures r.Success? <==> Tokens(pattern, 0).Some?
    ensures r.Failure? ==> r.error == InvalidArgument
    ensures r.Success? ==> NoStarRun(r.value)
    ensures r.Success? ==> forall v :: Matches(r.value, v) <==> Matches(Tokens(pattern, 0).value, v)
    ensures r.Success? <==> Terminated(pattern)
    ensures r.Success? ==> forall v :: Matches(r.value, v) <==> Fits(pattern, v)
  {
    TerminatedExactly(pattern);
    var tokens: seq<Token> := [];
    ghost var raw: seq<Token> := [];
    var index := 0;
    ghost var all := Tokens(pattern, 0);
    assert all.Some? ==> [] + all.value == all.value;
    while index < |pattern|
      invariant 0 <= index <= |pattern| && tokens == Collapsed(raw) && Parsing(pattern, index, raw)
    {
      ghost var from := index;
      var token;
      match pattern[index] {
        case '*' => token, index := AnySequence, index + 1;
        case '?' => token, index := AnyCharacter, index + 1;
        case '[' =>
          var parsed := ParseCharacterClass(pattern, index);
          if parsed.None? {
            return Failure(InvalidArgument);
          }
          token, index := parsed.value.0, parsed.value.1;
        case literal => token, index := Literal(literal), index + 1;
      }
      Parsed(pattern, from, raw, token, index);
      CollapsedNext(raw, token);
      if !(token.AnySequence? && tokens != [] && tokens[|tokens| - 1].AnySequence?) {
        tokens := tokens + [token];
      }
      raw := raw + [token];
    }
    ParsedAll(pattern, raw, tokens);
    r := Success(tokens);
  }
}
