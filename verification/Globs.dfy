/**
  `.conceptignore` patterns: their translation to regular expressions, and the meaning of
  both sides.

  A pattern is translated to a text; the text is read as the regular expression it spells;
  the expression is given its language; and that language is compared with a reading of
  patterns that knows nothing of regular expressions, segment by segment.
 */
module Globs {
  import opened Options
  import Texts

  // ---------------------------------------------------------------------------
  // Translation
  // ---------------------------------------------------------------------------

  /** The pieces a translated pattern is made of. */
  datatype Piece =
    | Lit(c: char)       // an escaped literal
    | OneInSegment       // [^/]
    | StarInSegment      // [^/]*
    | Anything           // .*
    | Directories        // (?:[^/]+/)+

  /** The characters that `re.escape` prefixes with a backslash. */
  const SPECIAL := {'(', ')', '[', ']', '{', '}', '?', '*', '+', '-', '|', '^', '$', '\\', '.', '&', '~', '#', ' ',
                    '\t', '\n', '\r', 11 as char, 12 as char}

  function Escape(c: char): string
  {
    if c in SPECIAL then ['\\', c] else [c]
  }

  function Spell(p: Piece): string
  {
    match p
    case Lit(c) => Escape(c)
    case OneInSegment => "[^/]"
    case StarInSegment => "[^/]*"
    case Anything => ".*"
    case Directories => "(?:[^/]+/)+"
  }

  function SpellAll(ps: seq<Piece>): string
  {
    if ps == [] then "" else SpellAll(ps[..|ps| - 1]) + Spell(ps[|ps| - 1])
  }

  /** The piece a star at the front stands for, and how many characters it uses up. */
  function StarPiece(p: string): (r: (Piece, nat))
    requires p != "" && p[0] == '*'
    ensures 1 <= r.1 <= |p|
  {
    if |p| == 1 || p[1] != '*' then (StarInSegment, 1)
    else if |p| == 2 then (Anything, 2)
    else if p[2] == '/' && |p| > 3 then (Directories, 3)
    else (Anything, if p[2] == '/' then 3 else 2)
  }

  /** The pieces of a pattern, left to right. */
  function Pieces(p: string): seq<Piece>
  {
    if p == "" then []
    else if p[0] == '*' then
      var (piece, n) := StarPiece(p);
      [piece] + Pieces(p[n..])
    else if p[0] == '?' then [OneInSegment] + Pieces(p[1..])
    else [Lit(p[0])] + Pieces(p[1..])
  }

  lemma {:induction false} SpellAppend(ps: seq<Piece>, qs: seq<Piece>)
    ensures SpellAll(ps + qs) == SpellAll(ps) + SpellAll(qs)
  {
    if qs == [] {
      assert ps + qs == ps;
    } else {
      var front := qs[..|qs| - 1];
      assert (ps + qs)[..|ps + qs| - 1] == ps + front;
      SpellAppend(ps, front);
    }
  }

  lemma SpellOne(p: Piece)
    ensures SpellAll([p]) == Spell(p)
  {
    assert [p][..0] == [];
  }

  /** Appends the translation of one star or double star, and returns the next index. */
  method AppendStar(pattern: string, index: nat, out: string) returns (next: nat, longer: string)
    requires index < |pattern| && pattern[index] == '*'
    ensures next == index + StarPiece(pattern[index..]).1
    ensures longer == out + Spell(StarPiece(pattern[index..]).0)
  {
    if index + 1 >= |pattern| || pattern[index + 1] != '*' {
      return index + 1, out + "[^/]*";
    }
    var following := index + 2;
    if following >= |pattern| {
      return following, out + ".*";
    }
    if pattern[following] == '/' && following + 1 < |pattern| {
      return following + 1, out + "(?:[^/]+/)+";
    }
    return if pattern[following] == '/' then following + 1 else following, out + ".*";
  }

  /** The anchored expression text of a pattern. */
  method GlobToRegex(pattern: string) returns (regex: string)
    ensures regex == "^" + SpellAll(Pieces(pattern)) + "$"
  {
    hide SpellAll, Pieces, StarPiece;
    var i := 0;
    var out := "^";
    ghost var done: seq<Piece> := [];
    SpellNone();
    assert pattern[0..] == pattern;
    while i < |pattern|
      invariant i <= |pattern| && Pieces(pattern) == done + Pieces(pattern[i..])
      invariant out == "^" + SpellAll(done)
      decreases |pattern| - i
    {
      var ch := pattern[i];
      ghost var piece := FirstPiece(pattern[i..]);
      SpellMore(pattern, i, done);
      if ch == '*' {
        i, out := AppendStar(pattern, i, out);
      } else if ch == '?' {
        out := out + "[^/]";
        i := i + 1;
      } else {
        out := out + Escape(ch);
        i := i + 1;
      }
      done := done + [piece];
    }
    assert pattern[|pattern|..] == "";
    assert done + [] == done;
    regex := out + "$";
  }

  lemma SpellNone()
    ensures SpellAll([]) == "" && Pieces("") == []
  {
  }

  function PieceLength(rest: string): (n: nat)
    requires rest != ""
    ensures 1 <= n <= |rest|
  {
    if rest[0] == '*' then StarPiece(rest).1 else 1
  }

  function FirstPiece(rest: string): Piece
    requires rest != ""
  {
    if rest[0] == '*' then StarPiece(rest).0 else if rest[0] == '?' then OneInSegment else Lit(rest[0])
  }

  lemma PiecesFront(rest: string)
    requires rest != ""
    ensures Pieces(rest) == [FirstPiece(rest)] + Pieces(rest[PieceLength(rest)..])
  {
  }

  /** One round of the translation loop, on the pieces. */
  lemma SpellMore(pattern: string, i: nat, done: seq<Piece>)
    requires i < |pattern| && Pieces(pattern) == done + Pieces(pattern[i..])
    ensures var rest := pattern[i..];
            && Pieces(pattern) == (done + [FirstPiece(rest)]) + Pieces(pattern[i + PieceLength(rest)..])
            && SpellAll(done + [FirstPiece(rest)]) == SpellAll(done) + Spell(FirstPiece(rest))
  {
    hide Pieces, SpellAll, StarPiece, FirstPiece, Spell;
    var rest := pattern[i..];
    assert rest[PieceLength(rest)..] == pattern[i + PieceLength(rest)..];
    PiecesFront(rest);
    SpellAppend(done, [FirstPiece(rest)]);
    SpellOne(FirstPiece(rest));
  }

  // ---------------------------------------------------------------------------
  // Reading the text back as a regular expression
  // ---------------------------------------------------------------------------

  /**
    The characters with a meaning of their own in an expression (section "Regular Expression Syntax"
    of Python's re).
   */
  const METACHARACTERS := {'.', '^', '$', '*', '+', '?', '{', '}', '[', ']', '\\', '|', '(', ')'}

  /** After a backslash these stand for something else. */
  predicate IsAsciiAlphanumeric(c: char)
  {
    '0' <= c <= '9' || 'A' <= c <= 'Z' || 'a' <= c <= 'z'
  }

  /** The piece at the front of an expression text, and its length: any other use of a metacharacter fails. */
  function FrontPiece(t: string): (r: Option<(Piece, nat)>)
    ensures r.Some? ==> 1 <= r.value.1 <= |t|
  {
    if "[^/]*" <= t then Some((StarInSegment, 5))
    else if "[^/]" <= t then Some((OneInSegment, 4))
    else if ".*" <= t then Some((Anything, 2))
    else if "(?:[^/]+/)+" <= t then Some((Directories, 11))
    else if |t| >= 2 && t[0] == '\\' && !IsAsciiAlphanumeric(t[1]) then Some((Lit(t[1]), 2))
    else if t != "" && t[0] !in METACHARACTERS then Some((Lit(t[0]), 1))
    else None
  }

  /** Reads the part after `^` in the dialect of the translation. */
  function ReadPieces(t: string): Option<seq<Piece>>
  {
    if t == "$" then Some([])
    else
      var front := FrontPiece(t);
      if front.None? then None else Prepend(front.value.0, ReadPieces(t[front.value.1..]))
  }

  function Prepend(p: Piece, rest: Option<seq<Piece>>): Option<seq<Piece>>
  {
    if rest.None? then None else Some([p] + rest.value)
  }

  function ReadRegex(regex: string): Option<seq<Piece>>
  {
    if regex != "" && regex[0] == '^' then ReadPieces(regex[1..]) else None
  }

  lemma FrontOne(p: Piece, rest: string)
    requires rest != "" && rest[0] != '*'
    ensures FrontPiece(Spell(p) + rest) == Some((p, |Spell(p)|))
  {
    var t := Spell(p) + rest;
    match p
    case Lit(c) =>
      assert if c in SPECIAL then t[0] == '\\' && t[1] == c else t[0] == c;
    case OneInSegment =>
      assert t[4] == rest[0];
      assert !("[^/]*" <= t);
    case StarInSegment =>
    case Anything =>
      assert t[0] == '.';
    case Directories =>
      assert t[0] == '(';
  }

  lemma ReadOne(p: Piece, rest: string)
    requires rest != "" && rest[0] != '*'
    ensures ReadPieces(Spell(p) + rest) == Prepend(p, ReadPieces(rest))
  {
    hide FrontPiece, Spell;
    FrontOne(p, rest);
    SpellStart(p);
    assert (Spell(p) + rest)[|Spell(p)|..] == rest;
  }

  lemma SpellStart(p: Piece)
    ensures Spell(p) != "" && Spell(p)[0] != '*'
  {
  }

  lemma ReadNothing()
    ensures SpellAll([]) == "" && ReadPieces("$") == Some([])
  {
  }

  lemma {:induction false} ReadSpelled(ps: seq<Piece>)
    ensures ReadPieces(SpellAll(ps) + "$") == Some(ps)
    ensures (SpellAll(ps) + "$")[0] != '*'
  {
    hide ReadPieces, SpellAll, Spell;
    if ps == [] {
      ReadNothing();
      assert SpellAll(ps) + "$" == "$";
    } else {
      var rest := SpellAll(ps[1..]) + "$";
      ReadSpelled(ps[1..]);
      ReadOne(ps[0], rest);
      SpellOne(ps[0]);
      SpellAppend([ps[0]], ps[1..]);
      SpellStart(ps[0]);
      assert ps == [ps[0]] + ps[1..];
      assert SpellAll(ps) + "$" == Spell(ps[0]) + rest;
    }
  }

  /** The emitted text spells exactly the intended expression: no literal is taken for syntax. */
  lemma RegexReadsBack(pattern: string)
    ensures ReadRegex("^" + SpellAll(Pieces(pattern)) + "$") == Some(Pieces(pattern))
  {
    hide ReadPieces, SpellAll, Pieces;
    ReadSpelled(Pieces(pattern));
    var regex := "^" + SpellAll(Pieces(pattern)) + "$";
    assert regex[1..] == SpellAll(Pieces(pattern)) + "$";
  }

  // ---------------------------------------------------------------------------
  // The language of an expression
  // ---------------------------------------------------------------------------

  /** The position of the first slash, or the length if there is none. */
  function FirstSlash(s: string): (j: nat)
    ensures j <= |s| && (j < |s| ==> s[j] == '/')
  {
    if s == "" || s[0] == '/' then 0 else 1 + FirstSlash(s[1..])
  }

  lemma {:induction false} NoSlashBefore(s: string)
    ensures '/' !in s[..FirstSlash(s)]
  {
    if s != "" && s[0] != '/' {
      NoSlashBefore(s[1..]);
      assert s[..FirstSlash(s)] == [s[0]] + s[1..][..FirstSlash(s[1..])];
    }
  }

  lemma FirstSlashOf(a: string, rest: string)
    requires '/' !in a
    ensures FirstSlash(a + rest) == |a| + FirstSlash(rest)
  {
    if a == "" {
      assert a + rest == rest;
    } else {
      assert (a + rest)[1..] == a[1..] + rest;
      FirstSlashOf(a[1..], rest);
    }
  }

  /** One or more non-empty names, each followed by a slash. */
  predicate AreDirectories(s: string)
    decreases |s|
  {
    var j := FirstSlash(s);
    0 < j < |s| && (j + 1 == |s| || AreDirectories(s[j + 1..]))
  }

  predicate PieceMatches(p: Piece, s: string)
  {
    match p
    case Lit(c) => s == [c]
    case OneInSegment => |s| == 1 && s[0] != '/'
    case StarInSegment => '/' !in s
    case Anything => '\n' !in s
    case Directories => AreDirectories(s)
  }

  /** Concatenation of languages. */
  predicate Matches(ps: seq<Piece>, s: string)
    decreases |ps|
  {
    if ps == [] then s == "" else exists k: nat :: k <= |s| && PieceMatches(ps[0], s[..k]) && Matches(ps[1..], s[k..])
  }

  /** The first piece takes the first `k` characters, the others the rest. */
  predicate MatchesAt(ps: seq<Piece>, s: string, k: nat)
    requires ps != []
  {
    k <= |s| && PieceMatches(ps[0], s[..k]) && Matches(ps[1..], s[k..])
  }

  lemma MatchesIff(ps: seq<Piece>, s: string)
    requires ps != []
    ensures Matches(ps, s) <==> exists k: nat :: MatchesAt(ps, s, k)
  {
    if Matches(ps, s) {
      var k: nat :| k <= |s| && PieceMatches(ps[0], s[..k]) && Matches(ps[1..], s[k..]);
      assert MatchesAt(ps, s, k);
    }
    if k: nat :| MatchesAt(ps, s, k) {
      assert PieceMatches(ps[0], s[..k]) && Matches(ps[1..], s[k..]);
    }
  }

  /** `re.search` with the anchored expression; `$` also matches before a final newline. */
  predicate Accepts(ps: seq<Piece>, path: string)
  {
    Matches(ps, path) || (path != "" && path[|path| - 1] == '\n' && Matches(ps, path[..|path| - 1]))
  }

  /** The compiled pattern ignores the path. */
  predicate PatternMatches(pattern: string, path: string)
  {
    var read := ReadRegex("^" + SpellAll(Pieces(pattern)) + "$");
    read.Some? && Accepts(read.value, path)
  }

  predicate IsIgnored(path: string, patterns: seq<string>)
  {
    exists p :: p in patterns && PatternMatches(p, path)
  }

  // ---------------------------------------------------------------------------
  // Patterns read directly
  // ---------------------------------------------------------------------------

  /** A pattern against a path, character by character, with every choice of the wildcards tried. */
  predicate GlobMatch(p: string, s: string)
    decreases |p| + |s|
  {
    if p == "" then s == ""
    else if |p| >= 2 && p[0] == '*' && p[1] == '*' then
      if |p| == 2 || p[2..] == "/" then true
      else if p[2] == '/' then
        var j := FirstSlash(s);
        0 < j < |s| && (GlobMatch(p[3..], s[j + 1..]) || GlobMatch(p, s[j + 1..]))
      else GlobMatch(p[2..], s) || (s != "" && GlobMatch(p, s[1..]))
    else if p[0] == '*' then GlobMatch(p[1..], s) || (s != "" && s[0] != '/' && GlobMatch(p, s[1..]))
    else if p[0] == '?' then s != "" && s[0] != '/' && GlobMatch(p[1..], s[1..])
    else s != "" && s[0] == p[0] && GlobMatch(p[1..], s[1..])
  }

  lemma MatchesSingle(ps: seq<Piece>, s: string)
    requires ps != [] && (ps[0].Lit? || ps[0].OneInSegment?)
    ensures Matches(ps, s) <==> s != "" && MatchesAt(ps, s, 1)
  {
  }

  predicate MayTake(p: Piece, c: char)
  {
    (p.StarInSegment? && c != '/') || (p.Anything? && c != '\n')
  }

  lemma StarTakesMore(p: Piece, s: string, k: nat)
    requires (p.StarInSegment? || p.Anything?) && k < |s|
    ensures PieceMatches(p, s[..k + 1]) <==> MayTake(p, s[0]) && PieceMatches(p, s[1..][..k])
  {
    assert s[..k + 1] == [s[0]] + s[1..][..k];
  }

  /** A starred class either stops or takes one more character. */
  lemma MatchesStar(ps: seq<Piece>, s: string)
    requires ps != [] && (ps[0].StarInSegment? || ps[0].Anything?)
    ensures Matches(ps, s) <==>
            Matches(ps[1..], s) || (s != "" && MayTake(ps[0], s[0]) && Matches(ps, s[1..]))
  {
    hide Matches;
    MatchesIff(ps, s);
    assert s[..0] == "" && s[0..] == s;
    assert MatchesAt(ps, s, 0) <==> Matches(ps[1..], s);
    if s != "" {
      MatchesIff(ps, s[1..]);
      forall k: nat | k < |s|
        ensures MatchesAt(ps, s, k + 1) <==> MayTake(ps[0], s[0]) && MatchesAt(ps, s[1..], k)
      {
        StarTakesMore(ps[0], s, k);
        assert s[1..][k..] == s[k + 1..];
      }
      if Matches(ps, s) && !MatchesAt(ps, s, 0) {
        var k: nat :| MatchesAt(ps, s, k);
        assert MatchesAt(ps, s, k - 1 + 1);
        assert MatchesAt(ps, s[1..], k - 1);
      }
      if MayTake(ps[0], s[0]) && Matches(ps, s[1..]) {
        var k: nat :| MatchesAt(ps, s[1..], k);
        assert MatchesAt(ps, s, k + 1);
      }
    }
  }

  lemma {:induction false} FirstSlashPrefix(s: string, k: nat)
    requires k <= |s|
    ensures FirstSlash(s[..k]) == if FirstSlash(s) < k then FirstSlash(s) else k
  {
    if k > 0 && s[0] != '/' {
      assert s[..k][1..] == s[1..][..k - 1];
      FirstSlashPrefix(s[1..], k - 1);
    }
  }

  lemma DirectoriesUnfold(s: string)
    ensures var j := FirstSlash(s);
            AreDirectories(s) <==> 0 < j < |s| && (j + 1 == |s| || AreDirectories(s[j + 1..]))
  {
    hide FirstSlash;
  }

  lemma DirectoriesSplit(s: string, k: nat)
    requires k <= |s|
    ensures var j := FirstSlash(s);
            AreDirectories(s[..k]) <==> 0 < j < k && (j + 1 == k || AreDirectories(s[j + 1..][..k - j - 1]))
  {
    hide FirstSlash, AreDirectories;
    var j := FirstSlash(s);
    FirstSlashPrefix(s, k);
    DirectoriesUnfold(s[..k]);
    if j < k {
      assert s[..k][j + 1..] == s[j + 1..][..k - j - 1];
    }
  }

  /** A piece that takes directories takes the first one, and then nothing or more of them. */
  lemma DirectoryStep(ps: seq<Piece>, s: string, k: nat)
    requires ps != [] && ps[0].Directories? && k <= |s|
    ensures var j := FirstSlash(s);
            MatchesAt(ps, s, k) <==>
            0 < j < k && if k == j + 1 then Matches(ps[1..], s[j + 1..]) else MatchesAt(ps, s[j + 1..], k - j - 1)
  {
    hide AreDirectories, FirstSlash, Matches;
    var j := FirstSlash(s);
    DirectoriesSplit(s, k);
    if 0 < j < k {
      assert s[j + 1..][k - j - 1..] == s[k..];
    }
  }

  /** One more directory, and then either the rest or yet more directories. */
  lemma MatchesDirectories(ps: seq<Piece>, s: string)
    requires ps != [] && ps[0].Directories?
    ensures var j := FirstSlash(s);
            Matches(ps, s) <==> 0 < j < |s| && (Matches(ps[1..], s[j + 1..]) || Matches(ps, s[j + 1..]))
  {
    hide FirstSlash, Matches, MatchesAt;
    var j := FirstSlash(s);
    MatchesIff(ps, s);
    if Matches(ps, s) {
      var k: nat :| MatchesAt(ps, s, k);
      TakesWithin(ps, s, k);
      DirectoryStep(ps, s, k);
      MatchesIff(ps, s[j + 1..]);
    }
    if 0 < j < |s| {
      var t := s[j + 1..];
      if Matches(ps[1..], t) {
        DirectoryStep(ps, s, j + 1);
      }
      MatchesIff(ps, t);
      if Matches(ps, t) {
        var k: nat :| MatchesAt(ps, t, k);
        TakesWithin(ps, t, k);
        DirectoryStep(ps, t, k);
        DirectoryStep(ps, s, j + 1 + k);
      }
    }
  }

  lemma TakesWithin(ps: seq<Piece>, s: string, k: nat)
    requires ps != [] && MatchesAt(ps, s, k)
    ensures k <= |s|
  {
    hide Matches, PieceMatches;
  }

  /** `.*` at the very end takes any newline-free rest. */
  lemma MatchesAnythingLast(s: string)
    requires '\n' !in s
    ensures Matches([Anything], s)
  {
    assert s[..|s|] == s && s[|s|..] == "";
    assert [Anything][1..] == [];
    assert MatchesAt([Anything], s, |s|);
  }

  /** The translation means what the pattern means, for every pattern and every newline-free path. */
  lemma {:induction false} TranslationPreservesMeaning(p: string, s: string)
    requires '\n' !in s
    ensures Matches(Pieces(p), s) <==> GlobMatch(p, s)
    decreases |p| + |s|
  {
    var ps := Pieces(p);
    if p == "" {
    } else if p[0] == '*' {
      var (piece, n) := StarPiece(p);
      assert ps[1..] == Pieces(p[n..]);
      if piece.Directories? {
        MatchesDirectories(ps, s);
        var j := FirstSlash(s);
        if 0 < j < |s| {
          TranslationPreservesMeaning(p[3..], s[j + 1..]);
          TranslationPreservesMeaning(p, s[j + 1..]);
        }
      } else if |p| >= 2 && p[1] == '*' && (|p| == 2 || p[2..] == "/") {
        assert p[n..] == "";
        assert ps == [Anything];
        MatchesAnythingLast(s);
      } else {
        MatchesStar(ps, s);
        TranslationPreservesMeaning(p[n..], s);
        if s != "" {
          TranslationPreservesMeaning(p, s[1..]);
        }
      }
    } else {
      assert ps[1..] == Pieces(p[1..]);
      MatchesSingle(ps, s);
      if s != "" {
        TranslationPreservesMeaning(p[1..], s[1..]);
      }
    }
  }

  /** The compiled pattern ignores a newline-free path iff the pattern, read directly, matches it. */
  lemma IgnoredIffGlobMatch(pattern: string, path: string)
    requires '\n' !in path
    ensures PatternMatches(pattern, path) <==> GlobMatch(pattern, path)
  {
    RegexReadsBack(pattern);
    TranslationPreservesMeaning(pattern, path);
  }

  /** A path is ignored iff one of the patterns, read directly, matches it. */
  lemma IgnoredIffSomeMatches(path: string, patterns: seq<string>)
    requires '\n' !in path
    ensures IsIgnored(path, patterns) <==> exists p :: p in patterns && GlobMatch(p, path)
  {
    hide PatternMatches, GlobMatch;
    forall p | p in patterns
      ensures PatternMatches(p, path) <==> GlobMatch(p, path)
    {
      IgnoredIffGlobMatch(p, path);
    }
  }

  /** The pattern that keeps the slashes of a text and asks for one character everywhere else. */
  function Mask(q: string): (p: string)
    ensures |p| == |q|
  {
    if q == "" then "" else [if q[0] == '/' then '/' else '?'] + Mask(q[1..])
  }

  lemma {:induction false} MaskMatches(q: string, s: string)
    ensures GlobMatch(Mask(q), q)
    ensures GlobMatch(Mask(q), s) ==> |s| == |q|
  {
    if q != "" {
      assert Mask(q)[1..] == Mask(q[1..]);
      MaskMatches(q[1..], if s == "" then "" else s[1..]);
    }
  }

  /** A newline before the end stops `.*`, but not the pattern that is translated to it. */
  lemma InnerNewlineParts(path: string, i: nat)
    requires i + 1 < |path| && path[i] == '\n'
    ensures GlobMatch("**", path) && !PatternMatches("**", path)
  {
    RegexReadsBack("**");
    assert "**"[2..] == "";
    assert Pieces("**") == [Anything];
    OnlyAnything(path);
    OnlyAnything(path[..|path| - 1]);
    assert path[..|path| - 1][i] == '\n';
  }

  lemma OnlyAnything(s: string)
    ensures Matches([Anything], s) <==> '\n' !in s
  {
    hide Matches, MatchesAt;
    MatchesIff([Anything], s);
    forall k: nat
      ensures MatchesAt([Anything], s, k) <==> k == |s| && '\n' !in s
    {
      AnythingAt(s, k);
    }
    assert '\n' !in s ==> MatchesAt([Anything], s, |s|);
  }

  lemma AnythingAt(s: string, k: nat)
    ensures MatchesAt([Anything], s, k) <==> k == |s| && '\n' !in s
  {
    hide Matches;
    assert [Anything][1..] == [];
    if k <= |s| {
      MatchesNothing(s[k..]);
      assert s[..|s|] == s;
    }
  }

  lemma MatchesNothing(s: string)
    ensures Matches([], s) <==> s == ""
  {
  }

  /** A single newline at the end is overlooked by the pattern for what comes before it. */
  lemma FinalNewlineParts(path: string)
    requires path != "" && path[|path| - 1] == '\n' && '\n' !in path[..|path| - 1]
    ensures var p := Mask(path[..|path| - 1]); PatternMatches(p, path) && !GlobMatch(p, path)
  {
    hide GlobMatch, Matches, Pieces, Mask;
    var q := path[..|path| - 1];
    MaskMatches(q, path);
    TranslationPreservesMeaning(Mask(q), q);
    RegexReadsBack(Mask(q));
  }

  /** Every pattern means on the path what it says iff the path holds no newline. */
  lemma MeaningKeptIffNewlineFree(path: string)
    ensures (forall p :: PatternMatches(p, path) <==> GlobMatch(p, path)) <==> '\n' !in path
  {
    hide PatternMatches, GlobMatch;
    if '\n' !in path {
      forall p
        ensures PatternMatches(p, path) <==> GlobMatch(p, path)
      {
        IgnoredIffGlobMatch(p, path);
      }
    } else {
      var i :| 0 <= i < |path| && path[i] == '\n' && (i + 1 < |path| || '\n' !in path[..i]);
      if i + 1 < |path| {
        InnerNewlineParts(path, i);
      } else {
        FinalNewlineParts(path);
      }
    }
  }

  // ---------------------------------------------------------------------------
  // Segment by segment
  // ---------------------------------------------------------------------------

  function SplitPath(s: string): (r: seq<string>)
    ensures r != []
  {
    var j := FirstSlash(s);
    if j == |s| then [s] else [s[..j]] + SplitPath(s[j + 1..])
  }

  /** One name against one segment of a pattern, where `*` and `?` stay inside the name. */
  predicate SegmentGlob(q: string, a: string)
    decreases |q| + |a|
  {
    if q == "" then a == ""
    else if q[0] == '*' then SegmentGlob(q[1..], a) || (a != "" && SegmentGlob(q, a[1..]))
    else a != "" && (q[0] == '?' || q[0] == a[0]) && SegmentGlob(q[1..], a[1..])
  }

  /** A pattern's segments against a path's: `**` takes one or more named segments, or at the end any rest. */
  predicate SegmentsMatch(ps: seq<string>, ss: seq<string>)
    decreases |ps| + |ss|
  {
    if ps == [] then ss == []
    else if ps[0] == "**" then
      if |ps| == 1 || ps[1..] == [""] then ss != []
      else ss != [] && ss[0] != "" && (SegmentsMatch(ps[1..], ss[1..]) || SegmentsMatch(ps, ss[1..]))
    else ss != [] && SegmentGlob(ps[0], ss[0]) && SegmentsMatch(ps[1..], ss[1..])
  }

  ghost predicate NoDoubleStar(q: string)
  {
    forall i, j :: 0 <= i && j == i + 1 && j < |q| ==> !(q[i] == '*' && q[j] == '*')
  }

  /** `**` occurs in the pattern only as a segment of its own. */
  ghost predicate WholeDoubleStars(p: string)
  {
    forall q :: q in SplitPath(p) ==> q == "**" || NoDoubleStar(q)
  }

  lemma TailNoDoubleStar(q: string)
    requires NoDoubleStar(q) && q != ""
    ensures NoDoubleStar(q[1..]) && (q[0] == '*' && |q| > 1 ==> q[1] != '*')
  {
    forall i, j | 0 <= i && j == i + 1 && j < |q[1..]|
      ensures !(q[1..][i] == '*' && q[1..][j] == '*')
    {
      assert q[1..][i] == q[i + 1] && q[1..][j] == q[j + 1];
    }
  }

  lemma FirstSlashStep(s: string)
    requires s != "" && s[0] != '/'
    ensures FirstSlash(s) == 1 + FirstSlash(s[1..])
    ensures s[..FirstSlash(s)] == [s[0]] + s[1..][..FirstSlash(s[1..])]
    ensures s[..FirstSlash(s)][1..] == s[1..][..FirstSlash(s[1..])]
    ensures FirstSlash(s) < |s| ==> s[FirstSlash(s) + 1..] == s[1..][FirstSlash(s[1..]) + 1..]
  {
  }

  /** A plain segment followed by a slash consumes exactly the first name of the path. */
  lemma {:induction false} PlainSegmentFront(q: string, rest: string, s: string)
    requires NoDoubleStar(q) && '/' !in q
    ensures var j := FirstSlash(s);
            GlobMatch(q + "/" + rest, s) <==> j < |s| && SegmentGlob(q, s[..j]) && GlobMatch(rest, s[j + 1..])
    decreases |q| + |s|
  {
    var p := q + "/" + rest;
    if q == "" {
      assert p == "/" + rest && p[1..] == rest;
    } else {
      TailNoDoubleStar(q);
      assert p[1..] == q[1..] + "/" + rest;
      assert p[0] == q[0] && (p[0] == '*' ==> p[1] != '*');
      if q[0] == '*' {
        PlainSegmentFront(q[1..], rest, s);
      }
      if s != "" && s[0] != '/' {
        FirstSlashStep(s);
        PlainSegmentFront(if q[0] == '*' then q else q[1..], rest, s[1..]);
      }
    }
  }

  /** A plain last segment matches a single name. */
  lemma {:induction false} PlainSegmentLast(q: string, s: string)
    requires NoDoubleStar(q) && '/' !in q
    ensures GlobMatch(q, s) <==> FirstSlash(s) == |s| && SegmentGlob(q, s)
    decreases |q| + |s|
  {
    if q != "" {
      TailNoDoubleStar(q);
      if q[0] == '*' {
        PlainSegmentLast(q[1..], s);
      }
      if s != "" && s[0] != '/' {
        PlainSegmentLast(if q[0] == '*' then q else q[1..], s[1..]);
      }
    }
  }

  lemma NoSegmentsLeft(ps: seq<string>)
    requires ps != []
    ensures !SegmentsMatch(ps, [])
  {
  }

  lemma SplitLast(s: string)
    ensures s == "" ==> SplitPath(s) == [""]
    ensures SplitPath(s) == [""] ==> s == ""
  {
  }

  /** For every pattern whose double stars are whole segments, matching goes segment by segment. */
  lemma {:induction false} MatchesBySegments(p: string, s: string)
    requires WholeDoubleStars(p)
    ensures GlobMatch(p, s) <==> SegmentsMatch(SplitPath(p), SplitPath(s))
    decreases |p| + |s|
  {
    hide SplitPath, SegmentsMatch, GlobMatch, SegmentGlob, FirstSlash, NoDoubleStar;
    var ps, ss := SplitPath(p), SplitPath(s);
    var i, j := FirstSlash(p), FirstSlash(s);
    SplitUnfold(p);
    assert ps[0] == p[..i] && ps[0] in ps;
    assert i == |p| ==> p[..i] == p;
    if ps[0] == "**" {
      DoubleStarSegment(p, s);
    } else if i == |p| {
      PlainLast(p, s);
    } else {
      RestWhole(p);
      PlainFront(p, s);
      if j < |s| {
        MatchesBySegments(p[i + 1..], s[j + 1..]);
      }
    }
  }

  lemma PlainLast(p: string, s: string)
    requires NoDoubleStar(p) && FirstSlash(p) == |p|
    ensures GlobMatch(p, s) <==> SegmentsMatch(SplitPath(p), SplitPath(s))
  {
    hide SplitPath, SegmentsMatch, GlobMatch, SegmentGlob, FirstSlash, NoDoubleStar;
    NoSlashBefore(p);
    assert p[..|p|] == p && s[..|s|] == s;
    SplitUnfold(p);
    SplitUnfold(s);
    PlainSegmentLast(p, s);
    PlainIsNotDoubleStar(p);
    PlainHead(SplitPath(p), SplitPath(s));
    NoPatternLeft(SplitPath(s)[1..]);
  }

  lemma PlainIsNotDoubleStar(q: string)
    requires NoDoubleStar(q)
    ensures q != "**"
  {
    SmallPatterns();
  }

  lemma PlainFront(p: string, s: string)
    requires FirstSlash(p) < |p| && NoDoubleStar(p[..FirstSlash(p)])
    ensures var i, j := FirstSlash(p), FirstSlash(s);
            && (j == |s| ==> !GlobMatch(p, s) && !SegmentsMatch(SplitPath(p), SplitPath(s)))
            && (j < |s| ==> (GlobMatch(p, s) <==> SegmentGlob(p[..i], s[..j]) && GlobMatch(p[i + 1..], s[j + 1..])))
            && (j < |s| ==> (SegmentsMatch(SplitPath(p), SplitPath(s))
                             <==>
                             && SegmentGlob(p[..i], s[..j])
                             && SegmentsMatch(SplitPath(p[i + 1..]), SplitPath(s[j + 1..]))))
  {
    hide SplitPath, SegmentsMatch, GlobMatch, SegmentGlob, FirstSlash, NoDoubleStar;
    var i, j := FirstSlash(p), FirstSlash(s);
    NoSlashBefore(p);
    assert p == p[..i] + "/" + p[i + 1..];
    SplitUnfold(p);
    SplitUnfold(s);
    PlainIsNotDoubleStar(p[..i]);
    PlainSegmentFront(p[..i], p[i + 1..], s);
    PlainHead(SplitPath(p), SplitPath(s));
    if j == |s| {
      NoSegmentsLeft(SplitPath(p[i + 1..]));
    }
  }

  lemma SplitUnfold(s: string)
    ensures var j := FirstSlash(s);
            && SplitPath(s) == [s[..j]] + (if j == |s| then [] else SplitPath(s[j + 1..]))
            && SplitPath(s)[0] == s[..j] && SplitPath(s)[1..] == if j == |s| then [] else SplitPath(s[j + 1..])
  {
    hide FirstSlash;
    assert s[..|s|] == s;
  }

  lemma PlainHead(ps: seq<string>, ss: seq<string>)
    requires ps != [] && ss != [] && ps[0] != "**"
    ensures SegmentsMatch(ps, ss) <==> SegmentGlob(ps[0], ss[0]) && SegmentsMatch(ps[1..], ss[1..])
  {
    hide SegmentGlob;
  }

  lemma NoPatternLeft(ss: seq<string>)
    ensures SegmentsMatch([], ss) <==> ss == []
  {
  }

  lemma RestWhole(p: string)
    requires WholeDoubleStars(p) && FirstSlash(p) < |p|
    ensures WholeDoubleStars(p[FirstSlash(p) + 1..])
  {
    hide NoDoubleStar, FirstSlash;
    var i := FirstSlash(p);
    var rest := SplitPath(p[i + 1..]);
    assert SplitPath(p) == [p[..i]] + rest;
    assert forall q :: q in rest ==> q in SplitPath(p);
  }

  lemma {:induction false} DoubleStarSegment(p: string, s: string)
    requires WholeDoubleStars(p) && SplitPath(p)[0] == "**"
    ensures GlobMatch(p, s) <==> SegmentsMatch(SplitPath(p), SplitPath(s))
    decreases |p| + |s|, 0
  {
    var ps, ss := SplitPath(p), SplitPath(s);
    var i, j := FirstSlash(p), FirstSlash(s);
    assert p[..i] == "**";
    if i == |p| {
      assert p == "**";
    } else {
      var rest := p[3..];
      assert p == "**/" + rest && ps[1..] == SplitPath(rest);
      RestWhole(p);
      SplitLast(rest);
      if rest == "" {
        assert p[2..] == "/";
      } else {
        assert p[2] == '/' && p[2..] != "/";
        if j < |s| {
          assert ss[1..] == SplitPath(s[j + 1..]);
          MatchesBySegments(rest, s[j + 1..]);
          MatchesBySegments(p, s[j + 1..]);
          assert ss[0] != "" <==> j > 0;
        } else {
          NoSegmentsLeft(ps[1..]);
          NoSegmentsLeft(ps);
        }
      }
    }
  }

  lemma {:induction false} PlainSegmentsMatch(ps: seq<string>, ss: seq<string>)
    requires "**" !in ps
    ensures SegmentsMatch(ps, ss) <==> |ps| == |ss| && forall i :: 0 <= i < |ps| ==> SegmentGlob(ps[i], ss[i])
  {
    if ps != [] && ss != [] {
      PlainSegmentsMatch(ps[1..], ss[1..]);
      assert forall i :: 1 <= i < |ps| ==> ps[i] == ps[1..][i - 1];
      assert |ps| == |ss| ==> forall i :: 1 <= i < |ps| ==> ss[i] == ss[1..][i - 1];
      if |ps| == |ss| && forall i :: 0 <= i < |ps| ==> SegmentGlob(ps[i], ss[i]) {
        forall i | 0 <= i < |ps[1..]|
          ensures SegmentGlob(ps[1..][i], ss[1..][i])
        {
          assert SegmentGlob(ps[i + 1], ss[i + 1]);
        }
      }
    }
  }

  /** The segments of a pattern without double stars have none either. */
  lemma {:induction false} SegmentsPlain(p: string)
    requires NoDoubleStar(p)
    ensures forall q :: q in SplitPath(p) ==> NoDoubleStar(q) && q != "**"
  {
    hide FirstSlash;
    var i := FirstSlash(p);
    SplitUnfold(p);
    SlicePlain(p, 0, i);
    PlainIsNotDoubleStar(p[..i]);
    if i < |p| {
      SlicePlain(p, i + 1, |p|);
      SegmentsPlain(p[i + 1..]);
    }
  }

  lemma SlicePlain(p: string, from: nat, to: nat)
    requires NoDoubleStar(p) && from <= to <= |p|
    ensures NoDoubleStar(p[from..to])
  {
    forall i, j | 0 <= i && j == i + 1 && j < to - from
      ensures !(p[from..to][i] == '*' && p[from..to][j] == '*')
    {
      assert p[from..to][i] == p[from + i] && p[from..to][j] == p[from + j];
    }
  }

  /** Without double stars, a pattern and a path have the same number of names, each matching its own. */
  lemma PlainMatchesNameByName(p: string, path: string)
    requires NoDoubleStar(p) && '\n' !in path
    ensures var ps, ss := SplitPath(p), SplitPath(path);
            PatternMatches(p, path) <==> |ps| == |ss| && forall i :: 0 <= i < |ps| ==> SegmentGlob(ps[i], ss[i])
  {
    hide SplitPath, PatternMatches, SegmentsMatch, SegmentGlob, GlobMatch, NoDoubleStar;
    SegmentsPlain(p);
    IgnoredIffGlobMatch(p, path);
    MatchesBySegments(p, path);
    PlainSegmentsMatch(SplitPath(p), SplitPath(path));
  }

  lemma {:induction false} StarTakesAnyName(a: string)
    ensures SegmentGlob("*", a)
    decreases |a|
  {
    assert "*"[1..] == "";
    if a != "" {
      StarTakesAnyName(a[1..]);
    }
  }

  lemma LastStar(ss: seq<string>)
    ensures SegmentsMatch(["*"], ss) <==> |ss| == 1
  {
    assert ["*"][1..] == [] && ["*"][0] != "**";
    if ss != [] {
      StarTakesAnyName(ss[0]);
    }
  }

  lemma {:induction false} SubdirectoriesOnly(ss: seq<string>)
    ensures SegmentsMatch(["**", "*"], ss) <==> |ss| >= 2 && forall k :: 0 <= k < |ss| - 1 ==> ss[k] != ""
  {
    var ps := ["**", "*"];
    assert ps[1..] == ["*"] && ps[1..] != [""];
    if ss != [] {
      LastStar(ss[1..]);
      SubdirectoriesOnly(ss[1..]);
      assert forall k :: 0 <= k < |ss| - 1 ==> ss[1..][k] == ss[k + 1];
      assert forall k :: 1 <= k < |ss| ==> ss[k] == ss[1..][k - 1];
    }
  }

  lemma SplitCons(q: string, rest: string)
    requires '/' !in q
    ensures SplitPath(q + "/" + rest) == [q] + SplitPath(rest)
  {
    var p := q + "/" + rest;
    assert p == q + ("/" + rest);
    FirstSlashOf(q, "/" + rest);
    assert p[..|q|] == q && p[|q| + 1..] == rest;
  }

  lemma SplitName(q: string)
    requires '/' !in q
    ensures SplitPath(q) == [q]
  {
    FirstSlashOf(q, "");
    assert q + "" == q;
  }

  lemma SmallPatterns()
    ensures NoDoubleStar("*") && !NoDoubleStar("**")
  {
    var q := "**";
    assert q[0] == '*' && q[1] == '*';
  }

  /** The segments of a pattern below a directory are those of the directory and then the others. */
  lemma {:induction false} SplitBelow(d: string, rest: string)
    ensures SplitPath(d + "/" + rest) == SplitPath(d) + SplitPath(rest)
    decreases |d|
  {
    hide SplitPath, FirstSlash;
    NoSlashBefore(d);
    SplitUnfold(d);
    var i := FirstSlash(d);
    if i == |d| {
      assert d[..i] == d;
      SplitCons(d, rest);
    } else {
      var head, tail := d[..i], d[i + 1..];
      assert d == head + "/" + tail && d + "/" + rest == head + "/" + (tail + "/" + rest);
      SplitCons(head, tail + "/" + rest);
      SplitBelow(tail, rest);
      assert [head] + SplitPath(tail) + SplitPath(rest) == [head] + (SplitPath(tail) + SplitPath(rest));
    }
  }

  /** The path lies under the directory: its first names match the directory's, one by one. */
  predicate Under(ds: seq<string>, ss: seq<string>)
  {
    |ds| <= |ss| && forall i :: 0 <= i < |ds| ==> SegmentGlob(ds[i], ss[i])
  }

  lemma {:induction false} DirectorySegments(ds: seq<string>, qs: seq<string>, ss: seq<string>)
    requires "**" !in ds
    ensures SegmentsMatch(ds + qs, ss) <==> Under(ds, ss) && SegmentsMatch(qs, ss[|ds|..])
  {
    hide SegmentGlob, SegmentsMatch;
    if ds == [] {
      assert ds + qs == qs && ss[0..] == ss;
    } else {
      var whole := ds + qs;
      assert whole[1..] == ds[1..] + qs && whole[0] == ds[0] && ds[0] in ds;
      if ss == [] {
        NoSegmentsLeft(whole);
      } else {
        DirectorySegments(ds[1..], qs, ss[1..]);
        PlainHead(whole, ss);
        UnderStep(ds, ss);
        assert |ds| <= |ss| ==> ss[1..][|ds[1..]|..] == ss[|ds|..];
      }
    }
  }

  lemma UnderStep(ds: seq<string>, ss: seq<string>)
    requires ds != [] && ss != []
    ensures Under(ds, ss) <==> SegmentGlob(ds[0], ss[0]) && Under(ds[1..], ss[1..])
  {
    hide SegmentGlob;
    if SegmentGlob(ds[0], ss[0]) && Under(ds[1..], ss[1..]) {
      forall i | 0 <= i < |ds|
        ensures SegmentGlob(ds[i], ss[i])
      {
        assert i > 0 ==> SegmentGlob(ds[1..][i - 1], ss[1..][i - 1]);
      }
    }
  }

  lemma WholeBelow(d: string, rest: string)
    requires NoDoubleStar(d) && WholeDoubleStars(rest)
    ensures WholeDoubleStars(d + "/" + rest)
  {
    hide SplitPath, NoDoubleStar;
    SplitBelow(d, rest);
    SegmentsPlain(d);
  }

  /** A pattern below a directory matches what lies under it and matches there. */
  lemma BelowDirectory(d: string, rest: string, path: string)
    requires NoDoubleStar(d) && WholeDoubleStars(rest) && '\n' !in path
    ensures var ds, ss := SplitPath(d), SplitPath(path);
            PatternMatches(d + "/" + rest, path) <==> Under(ds, ss) && SegmentsMatch(SplitPath(rest), ss[|ds|..])
  {
    hide SplitPath, PatternMatches, SegmentsMatch, GlobMatch, NoDoubleStar, WholeDoubleStars, Under;
    SegmentsPlain(d);
    SplitBelow(d, rest);
    WholeBelow(d, rest);
    IgnoredIffGlobMatch(d + "/" + rest, path);
    MatchesBySegments(d + "/" + rest, path);
    DirectorySegments(SplitPath(d), SplitPath(rest), SplitPath(path));
  }

  lemma DoubleStarPatterns()
    ensures SplitPath("**") == ["**"] && SplitPath("**/*") == ["**", "*"]
    ensures WholeDoubleStars("**") && WholeDoubleStars("**/*")
  {
    SplitName("**");
    SplitCons("**", "*");
    SplitName("*");
    assert "**/*" == "**" + "/" + "*" && ["**"] + ["*"] == ["**", "*"];
    SmallPatterns();
  }

  // For any directory `d` without double stars, nested or not: `d/**` takes everything below it,
  // direct children included; `d/**/*` only what lies in a subdirectory.
  lemma DirectoryPatterns(d: string, path: string)
    requires NoDoubleStar(d) && '\n' !in path
    ensures var ds, ss := SplitPath(d), SplitPath(path);
            && (PatternMatches(d + "/" + "**", path) <==> Under(ds, ss) && |ss| >= |ds| + 1)
            && (PatternMatches(d + "/" + "**/*", path) <==>
                  Under(ds, ss) && |ss| >= |ds| + 2 && forall k :: |ds| <= k < |ss| - 1 ==> ss[k] != "")
  {
    hide SplitPath, PatternMatches, GlobMatch, NoDoubleStar, WholeDoubleStars, SegmentGlob;
    DoubleStarPatterns();
    BelowDirectory(d, "**", path);
    BelowDirectory(d, "**/*", path);
    var ds, ss := SplitPath(d), SplitPath(path);
    if Under(ds, ss) {
      var tail := ss[|ds|..];
      SubdirectoriesOnly(tail);
      assert forall k :: 0 <= k < |tail| ==> tail[k] == ss[|ds| + k];
      assert forall k :: |ds| <= k < |ss| ==> ss[k] == tail[k - |ds|];
    }
  }

  // ---------------------------------------------------------------------------
  // Zero or more segments
  // ---------------------------------------------------------------------------

  // The reading in which a `**` between slashes may also take no segment at all.
  predicate ZeroOrMore(ps: seq<string>, ss: seq<string>)
    decreases |ps| + |ss|
  {
    if ps == [] then ss == []
    else if ps[0] == "**" then
      if EndsHere(ps) then ss != []
      else ZeroOrMore(ps[1..], ss) || (ss != [] && ss[0] != "" && ZeroOrMore(ps, ss[1..]))
    else ss != [] && SegmentGlob(ps[0], ss[0]) && ZeroOrMore(ps[1..], ss[1..])
  }

  predicate EndsHere(ps: seq<string>)
    requires ps != []
  {
    |ps| == 1 || ps[1..] == [""]
  }

  /** A double star with more of the pattern behind it. */
  predicate HasInnerDoubleStar(ps: seq<string>)
  {
    ps != [] && ((ps[0] == "**" && !EndsHere(ps)) || HasInnerDoubleStar(ps[1..]))
  }

  lemma {:induction false} OneIsZeroOrMore(ps: seq<string>, ss: seq<string>)
    ensures SegmentsMatch(ps, ss) ==> ZeroOrMore(ps, ss)
    ensures !HasInnerDoubleStar(ps) ==> (ZeroOrMore(ps, ss) <==> SegmentsMatch(ps, ss))
    decreases |ps| + |ss|
  {
    hide SegmentGlob;
    if ps != [] && ss != [] {
      OneIsZeroOrMore(ps[1..], ss[1..]);
      if ps[0] == "**" && !EndsHere(ps) {
        OneIsZeroOrMore(ps, ss[1..]);
      }
    }
  }

  /** A name the segment of a pattern matches. */
  function NameFor(q: string): string
  {
    if q == "" then ""
    else if q[0] == '*' then NameFor(q[1..])
    else [if q[0] == '?' then 'x' else q[0]] + NameFor(q[1..])
  }

  lemma {:induction false} NameMatches(q: string)
    requires '/' !in q
    ensures SegmentGlob(q, NameFor(q)) && '/' !in NameFor(q)
  {
    if q != "" {
      NameMatches(q[1..]);
      assert q[0] != '*' ==> NameFor(q)[1..] == NameFor(q[1..]);
    }
  }

  /** A path that leaves out every double star it can. */
  function ShortestPath(ps: seq<string>): seq<string>
  {
    if ps == [] then []
    else if ps[0] == "**" then if EndsHere(ps) then ["x"] else ShortestPath(ps[1..])
    else [NameFor(ps[0])] + ShortestPath(ps[1..])
  }

  /** How many segments every path needs that the translation accepts. */
  function SegmentsNeeded(ps: seq<string>): nat
  {
    if ps == [] then 0
    else if ps[0] == "**" && EndsHere(ps) then 1
    else 1 + SegmentsNeeded(ps[1..])
  }

  lemma {:induction false} ShortestMatches(ps: seq<string>)
    requires forall q :: q in ps ==> '/' !in q
    ensures ZeroOrMore(ps, ShortestPath(ps)) && forall a :: a in ShortestPath(ps) ==> '/' !in a
    ensures |ShortestPath(ps)| <= SegmentsNeeded(ps)
    ensures HasInnerDoubleStar(ps) ==> |ShortestPath(ps)| < SegmentsNeeded(ps)
    ensures ps != [] ==> ShortestPath(ps) != []
  {
    hide SegmentGlob;
    if ps != [] {
      ShortestMatches(ps[1..]);
      NameMatches(ps[0]);
      if ps[0] != "**" {
        assert ShortestPath(ps)[1..] == ShortestPath(ps[1..]);
      }
    }
  }

  lemma {:induction false} MatchNeedsSegments(ps: seq<string>, ss: seq<string>)
    requires SegmentsMatch(ps, ss)
    ensures |ss| >= SegmentsNeeded(ps)
    decreases |ps| + |ss|
  {
    hide SegmentGlob;
    if ps != [] && ss != [] {
      if SegmentsMatch(ps[1..], ss[1..]) {
        MatchNeedsSegments(ps[1..], ss[1..]);
      } else if ps[0] == "**" && !EndsHere(ps) {
        MatchNeedsSegments(ps, ss[1..]);
      }
    }
  }

  lemma {:induction false} SplitJoined(ss: seq<string>)
    requires ss != [] && forall a :: a in ss ==> '/' !in a
    ensures SplitPath(Texts.Join("/", ss)) == ss
  {
    hide SplitPath, Texts.Join;
    if |ss| == 1 {
      assert ss == [ss[0]];
      Texts.JoinOne("/", ss[0]);
      SplitName(ss[0]);
    } else {
      SplitJoined(ss[1..]);
      Texts.JoinUnfolds("/", ss);
      SplitCons(ss[0], Texts.Join("/", ss[1..]));
    }
  }

  lemma {:induction false} SegmentsSlashFree(p: string)
    ensures forall q :: q in SplitPath(p) ==> '/' !in q
  {
    hide FirstSlash;
    NoSlashBefore(p);
    var i := FirstSlash(p);
    assert p[..|p|] == p;
    if i < |p| {
      SegmentsSlashFree(p[i + 1..]);
    }
  }

  /** A path the documentation promises and the pattern does not match. */
  lemma InnerDoubleStarShows(p: string) returns (s: string)
    requires WholeDoubleStars(p) && HasInnerDoubleStar(SplitPath(p))
    ensures ZeroOrMore(SplitPath(p), SplitPath(s)) && !GlobMatch(p, s)
    ensures '\n' !in p ==> '\n' !in s
  {
    hide GlobMatch, SplitPath, ZeroOrMore, SegmentsMatch, ShortestPath, HasInnerDoubleStar, WholeDoubleStars;
    var ps := SplitPath(p);
    SegmentsSlashFree(p);
    ShortestMatches(ps);
    s := Texts.Join("/", ShortestPath(ps));
    SplitJoined(ShortestPath(ps));
    MatchesBySegments(p, s);
    if SegmentsMatch(ps, SplitPath(s)) {
      MatchNeedsSegments(ps, SplitPath(s));
    }
    if '\n' !in p {
      SegmentsNewlineFree(p);
      ShortestNewlineFree(ps);
      JoinNewlineFree(ShortestPath(ps));
    }
  }

  // The documented reading of `**` and the direct one agree on all paths iff no `**` has more of the
  // pattern behind it.
  lemma DocumentedReadingIff(p: string)
    requires WholeDoubleStars(p)
    ensures (forall s :: GlobMatch(p, s) <==> ZeroOrMore(SplitPath(p), SplitPath(s)))
            <==> !HasInnerDoubleStar(SplitPath(p))
  {
    hide GlobMatch, SplitPath, ZeroOrMore, SegmentsMatch, HasInnerDoubleStar, WholeDoubleStars;
    var ps := SplitPath(p);
    if HasInnerDoubleStar(ps) {
      var s := InnerDoubleStarShows(p);
    } else {
      forall s
        ensures GlobMatch(p, s) <==> ZeroOrMore(ps, SplitPath(s))
      {
        MatchesBySegments(p, s);
        OneIsZeroOrMore(ps, SplitPath(s));
      }
    }
  }

  lemma {:induction false} ShortestNewlineFree(ps: seq<string>)
    requires forall q :: q in ps ==> '\n' !in q
    ensures forall a :: a in ShortestPath(ps) ==> '\n' !in a
  {
    if ps != [] {
      ShortestNewlineFree(ps[1..]);
      NameNewlineFree(ps[0]);
    }
  }

  lemma {:induction false} NameNewlineFree(q: string)
    requires '\n' !in q
    ensures '\n' !in NameFor(q)
  {
    if q != "" {
      NameNewlineFree(q[1..]);
    }
  }

  lemma {:induction false} SegmentsNewlineFree(p: string)
    requires '\n' !in p
    ensures forall q :: q in SplitPath(p) ==> '\n' !in q
  {
    hide FirstSlash;
    var i := FirstSlash(p);
    SplitUnfold(p);
    if i < |p| {
      SegmentsNewlineFree(p[i + 1..]);
    }
  }

  lemma {:induction false} JoinNewlineFree(ss: seq<string>)
    requires ss != [] && forall a :: a in ss ==> '\n' !in a
    ensures '\n' !in Texts.Join("/", ss)
  {
    hide Texts.Join;
    if |ss| == 1 {
      assert ss == [ss[0]];
      Texts.JoinOne("/", ss[0]);
    } else {
      JoinNewlineFree(ss[1..]);
      Texts.JoinUnfolds("/", ss);
    }
  }

  // The same of what is compiled: a pattern is one line of the ignore file, and paths hold no newline.
  lemma DocumentedTranslationIff(p: string)
    requires WholeDoubleStars(p) && '\n' !in p
    ensures (forall s :: '\n' !in s ==> (PatternMatches(p, s) <==> ZeroOrMore(SplitPath(p), SplitPath(s))))
            <==> !HasInnerDoubleStar(SplitPath(p))
  {
    hide GlobMatch, PatternMatches, SplitPath, ZeroOrMore, SegmentsMatch, ShortestPath, HasInnerDoubleStar,
      WholeDoubleStars;
    var ps := SplitPath(p);
    if HasInnerDoubleStar(ps) {
      var s := InnerDoubleStarShows(p);
      IgnoredIffGlobMatch(p, s);
    } else {
      DocumentedReadingIff(p);
      forall s | '\n' !in s
        ensures PatternMatches(p, s) <==> ZeroOrMore(ps, SplitPath(s))
      {
        IgnoredIffGlobMatch(p, s);
      }
    }
  }
}
