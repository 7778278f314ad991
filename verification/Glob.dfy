// File name patterns: the matcher, and the language a pattern stands for.

module Glob {
  /** What a pattern is made of. `Dangling` is a backslash with nothing behind it. */
  datatype Token = Lit(c: char) | Any | Star | Dangling

  predicate DanglingLast(ts: seq<Token>) {
    forall i :: 0 <= i < |ts| - 1 ==> ts[i] != Dangling
  }

  predicate CString(s: string) {
    '\0' !in s
  }

  function Tokens(pattern: string): (ts: seq<Token>)
    ensures ts == [] <==> pattern == []
    ensures DanglingLast(ts) && (CString(pattern) ==> Lit('\0') !in ts)
  {
    if pattern == [] then []
    else if pattern[0] == '?' then [Any] + Tokens(pattern[1..])
    else if pattern[0] == '*' then [Star] + Tokens(pattern[1..])
    else if pattern[0] != '\\' then [Lit(pattern[0])] + Tokens(pattern[1..])
    else if |pattern| == 1 then [Dangling]
    else [Lit(pattern[1])] + Tokens(pattern[2..])
  }

  // ----- the language

  predicate Piece(t: Token, part: string) {
    match t
    case Lit(c) => part == [c]
    case Any => |part| == 1
    case Star => true
    case Dangling => false
  }

  function Flat(parts: seq<string>): string {
    if parts == [] then [] else parts[0] + Flat(parts[1..])
  }

  ghost predicate Splits(ts: seq<Token>, s: string, parts: seq<string>) {
    |parts| == |ts| && Flat(parts) == s && forall i :: 0 <= i < |ts| ==> Piece(ts[i], parts[i])
  }

  /** The string falls into pieces, one for each token. */
  ghost predicate Lang(ts: seq<Token>, s: string) {
    exists parts :: Splits(ts, s, parts)
  }

  lemma LangNil(s: string)
    ensures Lang([], s) <==> s == []
  {
    if s == [] {
      assert Splits([], s, []);
    }
  }

  lemma LangCons(ts: seq<Token>, s: string, k: nat)
    requires ts != [] && k <= |s| && Piece(ts[0], s[..k]) && Lang(ts[1..], s[k..])
    ensures Lang(ts, s)
  {
    var rest :| Splits(ts[1..], s[k..], rest);
    var parts := [s[..k]] + rest;
    assert parts[1..] == rest && s == s[..k] + s[k..];
    assert Splits(ts, s, parts);
  }

  lemma LangHead(ts: seq<Token>, s: string) returns (k: nat)
    requires ts != [] && Lang(ts, s)
    ensures k <= |s| && Piece(ts[0], s[..k]) && Lang(ts[1..], s[k..])
  {
    var parts :| Splits(ts, s, parts);
    k := |parts[0]|;
    assert s[..k] == parts[0] && s[k..] == Flat(parts[1..]);
    assert Splits(ts[1..], s[k..], parts[1..]);
  }

  /** A token that stands for one character. */
  lemma LangOne(ts: seq<Token>, s: string)
    requires ts != [] && (ts[0].Lit? || ts[0].Any?)
    ensures Lang(ts, s) <==> s != [] && Piece(ts[0], s[..1]) && Lang(ts[1..], s[1..])
  {
    if Lang(ts, s) {
      var k := LangHead(ts, s);
    } else if s != [] && Piece(ts[0], s[..1]) && Lang(ts[1..], s[1..]) {
      LangCons(ts, s, 1);
    }
  }

  /** How many characters a string of the language has at least. */
  function Least(ts: seq<Token>): nat {
    if ts == [] then 0 else (if ts[0].Star? then 0 else 1) + Least(ts[1..])
  }

  lemma {:induction false} LangLeast(ts: seq<Token>, s: string)
    requires Lang(ts, s)
    ensures |s| >= Least(ts) && Dangling !in ts
  {
    if ts == [] {
      LangNil(s);
    } else {
      var k := LangHead(ts, s);
      LangLeast(ts[1..], s[k..]);
    }
  }

  // ----- what the matcher computes

  datatype Outcome = Match | NoMatch | Overrun // Overrun: a read behind the end of a string

  /** A '?' has moved the string pointer behind the NUL; only a last '*' is content with that. */
  function Past(ts: seq<Token>): (o: Outcome)
    ensures o != NoMatch
  {
    if ts != [] && ts[0].Any? then Past(ts[1..]) else if ts == [Star] then Match else Overrun
  }

  function Run(ts: seq<Token>, s: string): Outcome
    decreases |ts|, |s|, 0
  {
    if ts == [] then (if s == [] then Match else NoMatch)
    else match ts[0]
         case Any => if s == [] then Past(ts[1..]) else Run(ts[1..], s[1..])
         case Star => if |ts| == 1 then Match else Scan(ts[1..], s)
         case Dangling => if s == [] then Overrun else NoMatch
         case Lit(c) => if s != [] && s[0] == c then Run(ts[1..], s[1..]) else NoMatch
  }

  /** The rest of the pattern at every place where the string has a character left, until one does not fail. */
  function Scan(ts: seq<Token>, s: string): Outcome
    decreases |ts|, |s|, 1
  {
    if s == [] then NoMatch
    else if Run(ts, s) == NoMatch then Scan(ts, s[1..]) else Run(ts, s)
  }

  /** The skip to the next place where a literal can match goes past no match. */
  lemma {:induction false} SkipLosesNothing(ts: seq<Token>, s: string, k: nat)
    requires ts != [] && ts[0].Lit? && k <= |s| && forall i :: 0 <= i < k ==> s[i] != ts[0].c
    ensures Scan(ts, s[k..]) == Scan(ts, s)
  {
    if k == 0 {
    } else {
      assert s[1..][k - 1..] == s[k..];
      SkipLosesNothing(ts, s[1..], k - 1);
    }
  }

  /** The character at a place of a C string, which may be the NUL that ends it. */
  function At(s: string, i: nat): char
    requires i <= |s|
  {
    if i < |s| then s[i] else '\0'
  }

  // What that comes to, told without the search.

  /** How a pattern is read: `?`, `*`, a backslash with the character behind it, and any other character. */
  lemma TokensRead(c: char, rest: string)
    ensures Tokens("?" + rest) == [Any] + Tokens(rest) && Tokens("*" + rest) == [Star] + Tokens(rest)
    ensures Tokens("\\" + [c] + rest) == [Lit(c)] + Tokens(rest) && Tokens("\\") == [Dangling]
    ensures c != '?' && c != '*' && c != '\\' ==> Tokens([c] + rest) == [Lit(c)] + Tokens(rest)
  {
    assert ("?" + rest)[1..] == rest && ("*" + rest)[1..] == rest;
    assert ("\\" + [c] + rest)[2..] == rest && ([c] + rest)[1..] == rest;
  }

  function Anys(n: nat): seq<Token> {
    seq(n, _ => Any)
  }

  ghost predicate AnysAndStar(ts: seq<Token>) {
    exists n: nat :: ts == Anys(n) + [Star]
  }

  lemma AnysCons(ts: seq<Token>)
    ensures AnysAndStar(ts) <==> ts == [Star] || (ts != [] && ts[0] == Any && AnysAndStar(ts[1..]))
  {
    if AnysAndStar(ts) {
      var n: nat :| ts == Anys(n) + [Star];
      if n == 0 {
        assert ts == [Star];
      } else {
        assert ts[0] == Any && ts[1..] == Anys(n - 1) + [Star];
      }
    }
    assert Anys(0) + [Star] == [Star];
    if ts != [] && ts[0] == Any && AnysAndStar(ts[1..]) {
      var n: nat :| ts[1..] == Anys(n) + [Star];
      assert ts == [Any] + ts[1..] && Anys(n + 1) == [Any] + Anys(n);
      assert ts == Anys(n + 1) + [Star];
    }
  }

  /** Behind the end of the string only any number of '?' and a last '*' are a match. */
  lemma {:induction false} PastExactly(ts: seq<Token>)
    ensures Past(ts) == if AnysAndStar(ts) then Match else Overrun
  {
    AnysCons(ts);
    if ts != [] && ts[0].Any? {
      PastExactly(ts[1..]);
    }
  }

  /** The first `n` tokens stand for the first `n` characters, one by one. */
  predicate Agree(ts: seq<Token>, s: string, n: nat) {
    n <= |ts| && n <= |s| && forall i :: 0 <= i < n ==> ts[i] == Any || ts[i] == Lit(s[i])
  }

  /**
   * As far as tokens and characters agree one by one the search goes on. The rest decides: nothing, a
   * star, a '?' or a backslash at the end of the string, or a literal that is not there.
   */
  lemma {:induction false} RunFrom(ts: seq<Token>, s: string, n: nat)
    requires Agree(ts, s, n)
    ensures Run(ts, s) ==
            if n == |ts| then (if |s| == n then Match else NoMatch)
            else if ts[n] == Star then (if n + 1 == |ts| then Match else Scan(ts[n + 1..], s[n..]))
            else if ts[n] == Any then (if |s| == n then Past(ts[n + 1..]) else Run(ts[n + 1..], s[n + 1..]))
            else if ts[n] == Dangling then (if |s| == n then Overrun else NoMatch)
            else if |s| > n && ts[n].c == s[n] then Run(ts[n + 1..], s[n + 1..])
            else NoMatch
  {
    if n == 0 {
      assert s[0..] == s;
    } else {
      assert Agree(ts[1..], s[1..], n - 1);
      RunFrom(ts[1..], s[1..], n - 1);
      assert s[1..][n - 1..] == s[n..];
      assert n < |ts| ==> ts[1..][n..] == ts[n + 1..];
      assert n < |s| ==> s[1..][n..] == s[n + 1..];
    }
  }

  /** Behind a star the first place decides at which the rest does not fail; the end of the string is none. */
  lemma {:induction false} ScanFirst(ts: seq<Token>, s: string, k: nat)
    requires k <= |s| && forall i :: 0 <= i < k ==> Run(ts, s[i..]) == NoMatch
    ensures Scan(ts, s) == if k == |s| then NoMatch else if Run(ts, s[k..]) != NoMatch then Run(ts, s[k..])
                           else Scan(ts, s[k + 1..])
  {
    assert s[0..] == s;
    if k > 0 {
      forall i | 0 <= i < k - 1
        ensures Run(ts, s[1..][i..]) == NoMatch
      {
        assert s[1..][i..] == s[i + 1..];
      }
      ScanFirst(ts, s[1..], k - 1);
      assert s[1..][k - 1..] == s[k..];
      assert k < |s| ==> s[1..][k..] == s[k + 1..];
    }
  }

  // What the first character of a pattern does, to a string and to a pointer that has left it.

  lemma AnyStep(left: string, s: string)
    requires left != [] && left[0] == '?'
    ensures Run(Tokens(left), s) ==
            if s == [] then Past(Tokens(left[1..])) else Run(Tokens(left[1..]), s[1..])
    ensures Past(Tokens(left)) == Past(Tokens(left[1..]))
  {
    assert Tokens(left)[1..] == Tokens(left[1..]);
  }

  lemma StarStep(left: string, s: string)
    requires left != [] && left[0] == '*'
    ensures Run(Tokens(left), s) == if |left| == 1 then Match else Scan(Tokens(left[1..]), s)
    ensures Past(Tokens(left)) == if |left| == 1 then Match else Overrun
  {
    assert Tokens(left)[1..] == Tokens(left[1..]);
  }

  lemma LitStep(left: string, c: char, rest: string, s: string)
    requires left != [] && Tokens(left) == [Lit(c)] + Tokens(rest)
    ensures Run(Tokens(left), s) == if s != [] && s[0] == c then Run(Tokens(rest), s[1..]) else NoMatch
    ensures Past(Tokens(left)) == Overrun
  {
    assert Tokens(left)[1..] == Tokens(rest);
  }

  lemma DanglingStep(left: string, s: string)
    requires left == "\\"
    ensures Run(Tokens(left), s) == if s == [] then Overrun else NoMatch
    ensures Past(Tokens(left)) == Overrun
  {
  }

  lemma EndStep(left: string, s: string)
    requires left == []
    ensures Run(Tokens(left), s) == if s == [] then Match else NoMatch
    ensures Past(Tokens(left)) == Overrun
  {
  }

  /** A character that stands for itself, as it is or behind a backslash. */
  lemma TokensLit(left: string)
    requires left != [] && left[0] != '?' && left[0] != '*'
    ensures left[0] != '\\' ==> Tokens(left) == [Lit(left[0])] + Tokens(left[1..])
    ensures left[0] == '\\' && |left| > 1 ==> Tokens(left) == [Lit(left[1])] + Tokens(left[2..])
  {
  }

  /** wc_match. The pointers are places in the strings; to read behind a NUL is an Overrun. */
  method WcMatch(str: string, pattern: string) returns (r: Outcome)
    requires CString(str) && CString(pattern)
    ensures r == Run(Tokens(pattern), str)
    decreases |pattern|, 0
  {
    hide Run, Scan, Past, Tokens;
    var s, p := 0, 0;
    var ch := At(pattern, p);
    p := p + 1;
    assert pattern[0..] == pattern && str[0..] == str;
    while ch != '\0'
      invariant 0 < p <= |pattern| + 1 && ch == At(pattern, p - 1)
      invariant s <= |str| ==> Run(Tokens(pattern[p - 1..]), str[s..]) == Run(Tokens(pattern), str)
      invariant s > |str| ==> Past(Tokens(pattern[p - 1..])) == Run(Tokens(pattern), str)
      decreases |pattern| + 1 - p
    {
      ghost var left, rest := pattern[p - 1..], if s <= |str| then str[s..] else [];
      assert left[1..] == pattern[p..];
      if ch == '*' {
        StarStep(left, rest);
        if At(pattern, p) == '\0' {
          return Match;
        }
        if s > |str| {
          return Overrun;
        }
        r := ScanFrom(str, s, pattern[p..]);
        return;
      } else if ch == '?' {
        AnyStep(left, rest);
      } else {
        TokensLit(left);
        if ch == '\\' {
          ch := At(pattern, p);
          p := p + 1;
          if p > |pattern| {
            DanglingStep(left, rest);
          } else {
            assert left[2..] == pattern[p..];
          }
        }
        if p <= |pattern| {
          LitStep(left, ch, pattern[p..], rest);
        }
        if s > |str| {
          return Overrun;
        }
        if At(str, s) != ch {
          return NoMatch;
        }
        if p > |pattern| {
          return Overrun;
        }
      }
      assert s < |str| ==> str[s..][1..] == str[s + 1..];
      ch := At(pattern, p);
      p := p + 1;
      s := s + 1;
    }
    EndStep(pattern[p - 1..], if s <= |str| then str[s..] else []);
    if s > |str| {
      return Overrun;
    }
    r := if At(str, s) == '\0' then Match else NoMatch;
  }

  /** The part of wc_match behind a '*' that is not the end of the pattern. */
  method ScanFrom(str: string, start: nat, pattern: string) returns (r: Outcome)
    requires CString(str) && CString(pattern) && start <= |str| && pattern != []
    ensures r == Scan(Tokens(pattern), str[start..])
    decreases |pattern|, 1
  {
    ghost var ts := Tokens(pattern);
    var s := start;
    while At(str, s) != '\0'
      invariant start <= s <= |str|
      invariant Scan(ts, str[s..]) == Scan(ts, str[start..])
      decreases |str| - s
    {
      if At(pattern, 0) != '?' && At(pattern, 0) != '\\' && At(pattern, 0) != '*' {
        ghost var from := s;
        while At(str, s) != '\0' && At(str, s) != At(pattern, 0)
          invariant from <= s <= |str| && forall i :: from <= i < s ==> str[i] != pattern[0]
          decreases |str| - s
        {
          s := s + 1;
        }
        SkipLosesNothing(ts, str[from..], s - from);
        assert str[from..][s - from..] == str[s..];
        if At(str, s) == '\0' {
          return NoMatch;
        }
      }
      r := WcMatch(str[s..], pattern);
      if r != NoMatch {
        return;
      }
      assert str[s..][1..] == str[s + 1..];
      s := s + 1;
    }
    r := NoMatch;
  }

  // ----- when the matcher is right

  /**
   * Every '?' stands directly behind a '*', which sees to it that there is a character left; so does a
   * last backslash.
   */
  predicate Guarded(ts: seq<Token>, behindStar: bool) {
    ts == [] || (((ts[0].Any? || ts[0].Dangling?) ==> behindStar) && Guarded(ts[1..], ts[0].Star?))
  }

  predicate EndsInTwoStars(ts: seq<Token>) {
    |ts| >= 2 && ts[|ts| - 2..] == [Star, Star]
  }

  lemma EndsInTail(ts: seq<Token>)
    requires |ts| >= 2
    ensures EndsInTwoStars(ts) <==> EndsInTwoStars(ts[1..]) || ts == [Star, Star]
  {
    if |ts| > 2 {
      assert ts[1..][|ts| - 3..] == ts[|ts| - 2..];
    }
  }

  /** No character and no pattern is left but stars. */
  lemma {:induction false} LangEmpty(ts: seq<Token>)
    ensures Lang(ts, []) <==> forall i :: 0 <= i < |ts| ==> ts[i] == Star
  {
    if ts == [] {
      LangNil([]);
    } else {
      LangEmpty(ts[1..]);
      if Lang(ts, []) {
        var k := LangHead(ts, []);
        assert ts[0] == Star;
        assert forall i :: 0 < i < |ts| ==> ts[i] == ts[1..][i - 1];
      } else if forall i :: 0 <= i < |ts| ==> ts[i] == Star {
        LangCons(ts, [], 0);
      }
    }
  }

  // A match is right, and no read goes astray, where every '?' is guarded.

  lemma {:induction false} RunSound(ts: seq<Token>, s: string, behindStar: bool)
    requires Guarded(ts, behindStar) && (behindStar ==> s != [])
    ensures Run(ts, s) != Overrun && (Run(ts, s) == Match ==> Lang(ts, s))
    decreases |ts|, |s|, 0
  {
    if ts == [] {
      LangNil(s);
    } else if ts[0].Star? {
      if |ts| == 1 {
        LangNil(s[|s|..]);
        LangCons(ts, s, |s|);
      } else {
        var k := ScanSound(ts[1..], s);
        if Run(ts, s) == Match {
          LangCons(ts, s, k);
        }
      }
    } else if !ts[0].Dangling? && s != [] {
      LangOne(ts, s);
      RunSound(ts[1..], s[1..], false);
    }
  }

  lemma {:induction false} ScanSound(ts: seq<Token>, s: string) returns (k: nat)
    requires Guarded(ts, true)
    ensures k <= |s| && Scan(ts, s) != Overrun && (Scan(ts, s) == Match ==> Lang(ts, s[k..]))
    decreases |ts|, |s|, 1
  {
    k := 0;
    if s == [] {
    } else {
      RunSound(ts, s, true);
      assert s[0..] == s;
      if Run(ts, s) == NoMatch {
        var j := ScanSound(ts, s[1..]);
        assert s[1..][j..] == s[j + 1..];
        k := j + 1;
      }
    }
  }

  // A failure is right where the pattern does not end in two stars.

  lemma OnlyStars(ts: seq<Token>)
    requires ts != [] && Lang(ts, [])
    ensures ts == [Star] || EndsInTwoStars(ts)
  {
    LangEmpty(ts);
    assert |ts| >= 2 ==> ts[|ts| - 2..] == [ts[|ts| - 2], ts[|ts| - 1]];
  }

  lemma {:induction false} RunComplete(ts: seq<Token>, s: string)
    requires !EndsInTwoStars(ts) && Lang(ts, s)
    ensures Run(ts, s) != NoMatch
    decreases |ts|, |s|, 0
  {
    if ts == [] {
      LangNil(s);
    } else {
      var k := LangHead(ts, s);
      if |ts| >= 2 {
        EndsInTail(ts);
      }
      if ts[0].Star? {
        if |ts| > 1 {
          ScanComplete(ts[1..], s, k);
        }
      } else {
        RunComplete(ts[1..], s[1..]);
      }
    }
  }

  lemma {:induction false} ScanComplete(ts: seq<Token>, s: string, k: nat)
    requires ts != [] && ts != [Star] && !EndsInTwoStars(ts) && k <= |s| && Lang(ts, s[k..])
    ensures Scan(ts, s) != NoMatch
    decreases |ts|, |s|, 1
  {
    if s == [] {
      OnlyStars(ts);
    } else if k == 0 {
      assert s[0..] == s;
      RunComplete(ts, s);
    } else if Run(ts, s) == NoMatch {
      assert s[1..][k - 1..] == s[k..];
      ScanComplete(ts, s[1..], k - 1);
    }
  }

  // Where one of the two does not hold, there is a string for which the matcher is wrong.

  /**
   * What the pattern asks for at least, with an x for every '?', up to the first '?' or backslash that is
   * not guarded.
   */
  function Shortest(ts: seq<Token>, behindStar: bool): string {
    if ts == [] then []
    else if (ts[0].Any? || ts[0].Dangling?) && !behindStar then []
    else match ts[0]
         case Lit(c) => [c] + Shortest(ts[1..], false)
         case Star => Shortest(ts[1..], true)
         case _ => ['x'] + Shortest(ts[1..], false)
  }

  lemma {:induction false} ShortestCString(ts: seq<Token>, behindStar: bool)
    requires Lit('\0') !in ts
    ensures CString(Shortest(ts, behindStar))
  {
    if ts == [] {
    } else {
      ShortestCString(ts[1..], ts[0].Star?);
    }
  }

  /** An unguarded '?' or backslash: the string is too short, and the matcher does not say so. */
  lemma {:induction false} UnguardedWrong(ts: seq<Token>, behindStar: bool)
    requires !Guarded(ts, behindStar) && DanglingLast(ts)
    ensures var s := Shortest(ts, behindStar);
            Run(ts, s) != NoMatch && (|s| < Least(ts) || Dangling in ts) && (behindStar ==> s != [])
  {
    var s := Shortest(ts, behindStar);
    if ts[0].Star? {
      UnguardedWrong(ts[1..], true);
    } else if behindStar || ts[0].Lit? {
      assert s[1..] == Shortest(ts[1..], false);
      UnguardedWrong(ts[1..], false);
    }
  }

  lemma OneStar()
    ensures Shortest([Star], true) == [] && Least([Star]) == 0 && Scan([Star], []) == NoMatch
  {
    assert [Star][1..] == [];
  }

  lemma TwoStars(behindStar: bool)
    ensures Shortest([Star, Star], behindStar) == [] && Least([Star, Star]) == 0 && Run([Star, Star], []) == NoMatch
  {
    OneStar();
    assert [Star, Star][1..] == [Star];
  }

  /** Two stars at the end: the string is in the language, and the matcher says it is not. */
  lemma {:induction false} TwoStarsWrong(ts: seq<Token>, behindStar: bool)
    requires Guarded(ts, behindStar) && DanglingLast(ts) && EndsInTwoStars(ts)
    ensures var s := Shortest(ts, behindStar); Run(ts, s) == NoMatch && Lang(ts, s) && |s| == Least(ts)
  {
    var s := Shortest(ts, behindStar);
    EndsInTail(ts);
    if ts == [Star, Star] {
      TwoStars(behindStar);
      LangEmpty(ts);
    } else if ts[0].Star? {
      TwoStarsWrong(ts[1..], true);
      assert s[0..] == s;
      LangCons(ts, s, 0);
      if s != [] {
        ScanShort(ts[1..], s[1..]);
      }
    } else {
      assert s[1..] == Shortest(ts[1..], false);
      TwoStarsWrong(ts[1..], false);
      LangOne(ts, s);
    }
  }

  lemma ScanShort(ts: seq<Token>, s: string)
    requires Guarded(ts, true) && |s| < Least(ts)
    ensures Scan(ts, s) == NoMatch
  {
    var k := ScanSound(ts, s);
    if Scan(ts, s) == Match {
      LangLeast(ts, s[k..]);
    }
  }

  ghost predicate Right(ts: seq<Token>, s: string) {
    Run(ts, s) == if Lang(ts, s) then Match else NoMatch
  }

  /**
   * The patterns for which wc_match decides the language of the pattern, for all strings: every '?' and a
   * last backslash stand behind a '*' that is not escaped, and there are not two of those at the end.
   */
  lemma RightExactly(pattern: string)
    requires CString(pattern)
    ensures var ts := Tokens(pattern);
            (forall s :: CString(s) ==> Right(ts, s)) <==> Guarded(ts, false) && !EndsInTwoStars(ts)
  {
    var ts := Tokens(pattern);
    var shortest := Shortest(ts, false);
    ShortestCString(ts, false);
    if !Guarded(ts, false) {
      UnguardedWrong(ts, false);
      if Lang(ts, shortest) {
        LangLeast(ts, shortest);
      }
      assert !Right(ts, shortest);
    } else if EndsInTwoStars(ts) {
      TwoStarsWrong(ts, false);
      assert !Right(ts, shortest);
    } else {
      forall s
        ensures Right(ts, s)
      {
        RunSound(ts, s, false);
        if Lang(ts, s) {
          RunComplete(ts, s);
        }
      }
    }
  }
}
