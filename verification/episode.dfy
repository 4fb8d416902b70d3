/**
  The season/episode identifier parser, `extractSeasonAndEpisode` (index.js).
  It searches a name for the regular expression `/s(\d+)\s?e(\d+)/i` and reads
  both captures as base-10 numbers.

  The regular expression is modelled twice: `PathAt` says declaratively in
  which ways the pattern can match at an offset, `FirstPathAt` picks the way a
  backtracking matcher tries first, and `MatchAt` / `ExtractFrom` compute the
  leftmost match directly. Their contracts connect the two.
 */
module Episode {
  import opened Wrappers
  import opened Decimal

  datatype Identifier = Identifier(season: nat, episode: nat)

  /** `\s`: the ECMAScript WhiteSpace and LineTerminator code points. */
  predicate IsWhitespace(c: char) {
    || c in {'\t', '\n', '\U{B}', '\U{C}', '\r', ' ', '\U{A0}', '\U{1680}'}
    || c in {'\U{2028}', '\U{2029}', '\U{202F}', '\U{205F}', '\U{3000}', '\U{FEFF}'}
    || '\U{2000}' <= c <= '\U{200A}'
  }

  /** Characters the case-insensitive `s` accepts (non-Unicode mode maps no other code point to it). */
  predicate IsLetterS(c: char) {
    c == 's' || c == 'S'
  }

  /** Characters the case-insensitive `e` accepts. */
  predicate IsLetterE(c: char) {
    c == 'e' || c == 'E'
  }

  /** The three character classes of the pattern never overlap. */
  lemma ClassesDisjoint(c: char)
    ensures IsWhitespace(c) ==> !IsDigit(c) && !IsLetterE(c)
    ensures IsLetterE(c) ==> !IsDigit(c)
  {
  }

  ghost predicate DigitsBetween(s: string, lo: int, hi: int) {
    0 <= lo <= hi <= |s| && forall j :: lo <= j < hi ==> IsDigit(s[j])
  }

  /**
    The pattern matches at offset `i` with `a` season digits, `w` (0 or 1)
    whitespace characters and `b` episode digits.
   */
  ghost predicate PathAt(s: string, i: nat, a: nat, w: nat, b: nat) {
    && i + a + w + b + 2 <= |s|
    && IsLetterS(s[i])
    && 1 <= a && DigitsBetween(s, i + 1, i + 1 + a)
    && w <= 1 && (w == 1 ==> IsWhitespace(s[i + 1 + a]))
    && IsLetterE(s[i + 1 + a + w])
    && 1 <= b && DigitsBetween(s, i + 2 + a + w, i + 2 + a + w + b)
  }

  ghost predicate MatchesAt(s: string, i: nat) {
    exists a: nat, w: nat, b: nat :: PathAt(s, i, a, w, b)
  }

  /**
    A backtracking matcher tries (a, w, b) no later than (a', w', b'): the
    greedy `\d+` tries longer runs first and the greedy `\s?` tries taking the
    whitespace before skipping it.
   */
  predicate TriedNoLater(a: nat, w: nat, b: nat, a': nat, w': nat, b': nat) {
    a > a' || (a == a' && (w > w' || (w == w' && b >= b')))
  }

  /** (a, w, b) is the match a backtracking matcher reports at offset `i`. */
  ghost predicate FirstPathAt(s: string, i: nat, a: nat, w: nat, b: nat) {
    && PathAt(s, i, a, w, b)
    && forall a': nat, w': nat, b': nat :: PathAt(s, i, a', w', b') ==> TriedNoLater(a, w, b, a', w', b')
  }

  /** Length of the longest run of digits starting at `k`. */
  function DigitRun(s: string, k: nat): (n: nat)
    requires k <= |s|
    ensures k + n <= |s|
    ensures forall j :: k <= j < k + n ==> IsDigit(s[j])
    ensures k + n == |s| || !IsDigit(s[k + n])
    decreases |s| - k
  {
    if k < |s| && IsDigit(s[k]) then 1 + DigitRun(s, k + 1) else 0
  }

  /** Every way of matching at `i` has the longest season run, and takes the whitespace exactly when there is one. */
  lemma PathsAtAreForced(s: string, i: nat)
    requires i < |s|
    ensures forall a: nat, w: nat, b: nat {:trigger PathAt(s, i, a, w, b)} :: PathAt(s, i, a, w, b) ==>
      && a == DigitRun(s, i + 1)
      && (w == 1 <==> IsWhitespace(s[i + 1 + a]))
      && b <= DigitRun(s, i + 2 + a + w)
  {
    forall a: nat, w: nat, b: nat | PathAt(s, i, a, w, b)
      ensures a == DigitRun(s, i + 1)
      ensures w == 1 <==> IsWhitespace(s[i + 1 + a])
      ensures b <= DigitRun(s, i + 2 + a + w)
    {
      ClassesDisjoint(s[i + 1 + a]);
      ClassesDisjoint(s[i + 1 + a + w]);
    }
  }

  /** The shape of a match: season digit count, whitespace count, episode digit count. */
  datatype Shape = Shape(seasonDigits: nat, space: nat, episodeDigits: nat)

  /** The season run is followed by whitespace, `e` and at least one digit: the matcher takes the whitespace. */
  lemma FirstPathWithSpace(s: string, i: nat)
    requires i < |s| && IsLetterS(s[i]) && DigitRun(s, i + 1) > 0
    requires i + 2 + DigitRun(s, i + 1) < |s|
    requires IsWhitespace(s[i + 1 + DigitRun(s, i + 1)]) && IsLetterE(s[i + 2 + DigitRun(s, i + 1)])
    requires DigitRun(s, i + 3 + DigitRun(s, i + 1)) > 0
    ensures FirstPathAt(s, i, DigitRun(s, i + 1), 1, DigitRun(s, i + 3 + DigitRun(s, i + 1)))
  {
    PathsAtAreForced(s, i);
  }

  /** The season run is followed directly by `e` and at least one digit. */
  lemma FirstPathWithoutSpace(s: string, i: nat)
    requires i < |s| && IsLetterS(s[i]) && DigitRun(s, i + 1) > 0
    requires i + 1 + DigitRun(s, i + 1) < |s|
    requires IsLetterE(s[i + 1 + DigitRun(s, i + 1)])
    requires DigitRun(s, i + 2 + DigitRun(s, i + 1)) > 0
    ensures FirstPathAt(s, i, DigitRun(s, i + 1), 0, DigitRun(s, i + 2 + DigitRun(s, i + 1)))
  {
    PathsAtAreForced(s, i);
    ClassesDisjoint(s[i + 1 + DigitRun(s, i + 1)]);
  }

  /** A match at `i` needs one of the two arrangements `MatchAt` looks for. */
  lemma MatchNeedsArrangement(s: string, i: nat)
    requires i < |s|
    ensures MatchesAt(s, i) ==>
      && IsLetterS(s[i]) && DigitRun(s, i + 1) > 0
      && var j := i + 1 + DigitRun(s, i + 1);
         || (j + 1 < |s| && IsWhitespace(s[j]) && IsLetterE(s[j + 1]) && DigitRun(s, j + 2) > 0)
         || (j < |s| && IsLetterE(s[j]) && DigitRun(s, j + 1) > 0)
  {
    PathsAtAreForced(s, i);
  }

  /** What the backtracking matcher finds when it starts at offset `i`. */
  function MatchAt(s: string, i: nat): Option<Shape>
    requires i < |s|
  {
    if !IsLetterS(s[i]) then None
    else
      var a := DigitRun(s, i + 1);
      var j := i + 1 + a;
      if a == 0 then None
      else if j + 1 < |s| && IsWhitespace(s[j]) && IsLetterE(s[j + 1]) && DigitRun(s, j + 2) > 0 then
        Some(Shape(a, 1, DigitRun(s, j + 2)))
      else if j < |s| && IsLetterE(s[j]) && DigitRun(s, j + 1) > 0 then
        Some(Shape(a, 0, DigitRun(s, j + 1)))
      else
        None
  }

  /** `MatchAt` finds a match exactly when the pattern matches at `i`, and it reports the backtracking matcher's choice. */
  lemma MatchAtIsFirstPath(s: string, i: nat)
    requires i < |s|
    ensures MatchAt(s, i).Some? ==> FirstPathAt(s, i, MatchAt(s, i).value.seasonDigits, MatchAt(s, i).value.space, MatchAt(s, i).value.episodeDigits)
    ensures MatchAt(s, i).None? <==> !MatchesAt(s, i)
  {
    MatchNeedsArrangement(s, i);
    if IsLetterS(s[i]) && DigitRun(s, i + 1) > 0 {
      var j := i + 1 + DigitRun(s, i + 1);
      if j + 1 < |s| && IsWhitespace(s[j]) && IsLetterE(s[j + 1]) && DigitRun(s, j + 2) > 0 {
        FirstPathWithSpace(s, i);
      } else if j < |s| && IsLetterE(s[j]) && DigitRun(s, j + 1) > 0 {
        FirstPathWithoutSpace(s, i);
      }
    }
  }

  /** The numbers a match of the given shape captures. */
  function Captured(s: string, i: nat, m: Shape): (e: Identifier)
    requires i + 2 + m.seasonDigits + m.space + m.episodeDigits <= |s|
    requires DigitsBetween(s, i + 1, i + 1 + m.seasonDigits)
    requires DigitsBetween(s, i + 2 + m.seasonDigits + m.space, i + 2 + m.seasonDigits + m.space + m.episodeDigits)
  {
    var a, w, b := m.seasonDigits, m.space, m.episodeDigits;
    var season := s[i + 1 .. i + 1 + a];
    var episode := s[i + 2 + a + w .. i + 2 + a + w + b];
    assert AllDigits(season) && AllDigits(episode);
    Identifier(Parse(season), Parse(episode))
  }

  /** The first match starting at or after offset `i`. */
  function ExtractFrom(s: string, i: nat): Option<Identifier>
    decreases |s| - i
  {
    if i >= |s| then None
    else
      match MatchAt(s, i)
      case Some(m) => Some(Captured(s, i, m))
      case None => ExtractFrom(s, i + 1)
  }

  /** `extractSeasonAndEpisode`: the leftmost match with both captures parsed, or `None` (the source's `null`). */
  function SeasonEpisode(name: string): Option<Identifier> {
    ExtractFrom(name, 0)
  }

  /** The result of a search from `i`: none when nothing matches at or after `i`, else the leftmost match's captures. */
  ghost predicate LeftmostFrom(s: string, i: nat, r: Option<Identifier>) {
    && (r.None? <==> forall j: nat :: i <= j < |s| ==> !MatchesAt(s, j))
    && (r.Some? ==> exists j: nat, m: Shape ::
      && i <= j < |s|
      && FirstPathAt(s, j, m.seasonDigits, m.space, m.episodeDigits)
      && (forall k: nat :: i <= k < j ==> !MatchesAt(s, k))
      && r.value == Captured(s, j, m))
  }

  /** A first path at `i` is the leftmost match from `i`. */
  lemma LeftmostHere(s: string, i: nat, m: Shape)
    requires i < |s| && FirstPathAt(s, i, m.seasonDigits, m.space, m.episodeDigits)
    requires i + 2 + m.seasonDigits + m.space + m.episodeDigits <= |s|
    requires DigitsBetween(s, i + 1, i + 1 + m.seasonDigits)
    requires DigitsBetween(s, i + 2 + m.seasonDigits + m.space, i + 2 + m.seasonDigits + m.space + m.episodeDigits)
    ensures LeftmostFrom(s, i, Some(Captured(s, i, m)))
  {
    assert MatchesAt(s, i);
    assert forall k: nat :: i <= k < i ==> !MatchesAt(s, k);
  }

  /** Without a match at `i`, the leftmost match from `i` is the leftmost match from `i + 1`. */
  lemma LeftmostStep(s: string, i: nat, r: Option<Identifier>)
    requires i < |s| && !MatchesAt(s, i) && LeftmostFrom(s, i + 1, r)
    ensures LeftmostFrom(s, i, r)
  {
    if r.Some? {
      var j: nat, m: Shape :|
        && i + 1 <= j < |s|
        && FirstPathAt(s, j, m.seasonDigits, m.space, m.episodeDigits)
        && (forall k: nat :: i + 1 <= k < j ==> !MatchesAt(s, k))
        && r.value == Captured(s, j, m);
      forall k: nat | i <= k < j
        ensures !MatchesAt(s, k)
      {
        if k > i {
          assert i + 1 <= k < j;
        }
      }
      assert MatchesAt(s, j);
    } else {
      forall k: nat | i <= k < |s|
        ensures !MatchesAt(s, k)
      {
        if k > i {
          assert i + 1 <= k < |s|;
        }
      }
    }
  }

  /** The scan reports the leftmost match, as the regular expression search does. */
  lemma {:induction false} ExtractFromIsLeftmost(s: string, i: nat)
    ensures LeftmostFrom(s, i, ExtractFrom(s, i))
    decreases |s| - i
  {
    if i < |s| {
      MatchAtIsFirstPath(s, i);
      match MatchAt(s, i)
      case Some(m) =>
        LeftmostHere(s, i, m);
      case None =>
        ExtractFromIsLeftmost(s, i + 1);
        LeftmostStep(s, i, ExtractFrom(s, i + 1));
    }
  }

  /**
    `extractSeasonAndEpisode` returns `None` exactly when the pattern matches
    nowhere, and otherwise the numbers captured by the leftmost match, taken
    the way a backtracking matcher takes them.
   */
  lemma SeasonEpisodeIsLeftmostMatch(name: string)
    ensures SeasonEpisode(name).None? <==> forall j: nat :: j < |name| ==> !MatchesAt(name, j)
    ensures SeasonEpisode(name).Some? ==> exists j: nat, m: Shape ::
      && j < |name|
      && FirstPathAt(name, j, m.seasonDigits, m.space, m.episodeDigits)
      && (forall k: nat :: k < j ==> !MatchesAt(name, k))
      && SeasonEpisode(name).value == Captured(name, j, m)
  {
    ExtractFromIsLeftmost(name, 0);
  }

  /** The index key `${season}-${episode}`. */
  function Key(e: Identifier): string {
    Show(e.season) + "-" + Show(e.episode)
  }

  /** A key is the season numeral, the first `-`, and the episode numeral. */
  lemma KeyParts(e: Identifier)
    ensures |Show(e.season)| < |Key(e)| && Key(e)[|Show(e.season)|] == '-'
    ensures forall k :: 0 <= k < |Show(e.season)| ==> Key(e)[k] != '-'
    ensures Key(e)[..|Show(e.season)|] == Show(e.season)
    ensures Key(e)[|Show(e.season)| + 1..] == Show(e.episode)
  {
    var u := Show(e.season);
    var k := Key(e);
    assert forall i :: 0 <= i < |u| ==> k[i] == u[i] && IsDigit(u[i]);
  }

  /** Distinct identifiers get distinct keys, so keying the index by the string loses nothing. */
  lemma KeyInjective(e1: Identifier, e2: Identifier)
    ensures Key(e1) == Key(e2) <==> e1 == e2
  {
    if Key(e1) == Key(e2) {
      KeyParts(e1);
      KeyParts(e2);
      var u, v := Show(e1.season), Show(e2.season);
      assert |u| == |v|;
      assert u == v;
      assert Show(e1.episode) == Show(e2.episode);
      ParseShow(e1.season);
      ParseShow(e2.season);
      ParseShow(e1.episode);
      ParseShow(e2.episode);
    }
  }

  /** `s` extends `x` with a dot right after it. */
  ghost predicate ExtendsWithDot(s: string, x: string) {
    |x| < |s| && s[..|x|] == x && s[|x|] == '.'
  }

  /** Digit runs inside `x` stop at the dot that follows it. */
  lemma {:induction false} DigitRunStopsAtDot(s: string, x: string, k: nat)
    requires ExtendsWithDot(s, x) && k <= |x|
    ensures DigitRun(s, k) == DigitRun(x, k)
    decreases |x| - k
  {
    if k < |x| {
      SameCharBeforeDot(s, x, k);
      DigitRunStopsAtDot(s, x, k + 1);
    }
  }

  lemma SameCharBeforeDot(s: string, x: string, k: nat)
    requires ExtendsWithDot(s, x) && k < |x|
    ensures s[k] == x[k]
  {
    assert s[..|x|][k] == s[k];
  }

  /** `MatchAt` only looks at the letter, the two digit runs and the one or two characters between them. */
  lemma MatchAtSameWindow(s: string, x: string, i: nat)
    requires i < |x| < |s|
    requires s[i] == x[i] && DigitRun(s, i + 1) == DigitRun(x, i + 1)
    requires var j := i + 1 + DigitRun(x, i + 1);
      && (j < |x| ==> s[j] == x[j] && DigitRun(s, j + 1) == DigitRun(x, j + 1))
      && (j + 1 < |x| ==> s[j + 1] == x[j + 1] && DigitRun(s, j + 2) == DigitRun(x, j + 2))
      && (j == |x| ==> s[j] == '.')
      && (j + 1 == |x| ==> s[j + 1] == '.')
    ensures MatchAt(s, i) == MatchAt(x, i)
  {
  }

  /** A match starting inside `x` sees the same characters in `s` as in `x` alone. */
  lemma MatchAtBeforeDot(s: string, x: string, i: nat)
    requires ExtendsWithDot(s, x) && i < |x|
    ensures MatchAt(s, i) == MatchAt(x, i)
  {
    SameCharBeforeDot(s, x, i);
    DigitRunStopsAtDot(s, x, i + 1);
    var j := i + 1 + DigitRun(x, i + 1);
    if j < |x| {
      SameCharBeforeDot(s, x, j);
      DigitRunStopsAtDot(s, x, j + 1);
    }
    if j + 1 < |x| {
      SameCharBeforeDot(s, x, j + 1);
      DigitRunStopsAtDot(s, x, j + 2);
    }
    MatchAtSameWindow(s, x, i);
  }

  /** The captures of a match inside `x` are the same characters in `x + "." + y`. */
  lemma CapturedBeforeDot(x: string, y: string, i: nat, m: Shape)
    requires PathAt(x, i, m.seasonDigits, m.space, m.episodeDigits)
    requires PathAt(x + "." + y, i, m.seasonDigits, m.space, m.episodeDigits)
    ensures Captured(x + "." + y, i, m) == Captured(x, i, m)
  {
    var s := x + "." + y;
    var lo1, hi1 := i + 1, i + 1 + m.seasonDigits;
    var lo2, hi2 := i + 2 + m.seasonDigits + m.space, i + 2 + m.seasonDigits + m.space + m.episodeDigits;
    assert s[lo1..hi1] == x[lo1..hi1];
    assert s[lo2..hi2] == x[lo2..hi2];
  }

  /** No match starts at the dot or in a suffix that has no letter `s`. */
  lemma {:induction false} NoMatchAfterDot(x: string, y: string, i: nat)
    requires forall k :: 0 <= k < |y| ==> !IsLetterS(y[k])
    requires |x| <= i
    ensures ExtractFrom(x + "." + y, i) == None
    decreases |x + "." + y| - i
  {
    var s := x + "." + y;
    if i < |s| {
      assert i == |x| ==> s[i] == '.';
      assert i > |x| ==> s[i] == y[i - |x| - 1];
      NoMatchAfterDot(x, y, i + 1);
    }
  }

  /** Scanning from offset `i` inside `x` finds the same identifier in `x + "." + y` as in `x`. */
  lemma {:induction false} ExtractFromBeforeDot(x: string, y: string, i: nat)
    requires forall k :: 0 <= k < |y| ==> !IsLetterS(y[k])
    requires i <= |x|
    ensures ExtractFrom(x + "." + y, i) == ExtractFrom(x, i)
    decreases |x| - i
  {
    if i == |x| {
      NoMatchAfterDot(x, y, i);
    } else {
      assert ExtendsWithDot(x + "." + y, x);
      MatchAtBeforeDot(x + "." + y, x, i);
      if MatchAt(x, i).Some? {
        CapturedBeforeDot(x, y, i, MatchAt(x, i).value);
      }
      ExtractFromBeforeDot(x, y, i + 1);
    }
  }

  /**
    Appending a dot and a suffix without any `s`/`S` leaves the identifier
    unchanged: the pattern cannot cross the dot, and nothing after it can start
    a match.
   */
  lemma ExtractIgnoresDotSuffix(x: string, y: string)
    requires forall k :: 0 <= k < |y| ==> !IsLetterS(y[k])
    ensures SeasonEpisode(x + "." + y) == SeasonEpisode(x)
  {
    ExtractFromBeforeDot(x, y, 0);
  }

  lemma MatchOfS01E02()
    ensures MatchAt("S01E02", 0) == Some(Shape(2, 0, 2))
  {
    var s := "S01E02";
    assert DigitRun(s, 6) == 0;
    assert DigitRun(s, 5) == 1;
    assert DigitRun(s, 4) == 2;
    assert s[3] == 'E' && !IsWhitespace(s[3]);
    assert DigitRun(s, 3) == 0;
    assert DigitRun(s, 2) == 1;
    assert DigitRun(s, 1) == 2;
  }

  lemma MatchOfS1E2()
    ensures MatchAt("s1e2", 0) == Some(Shape(1, 0, 1))
  {
    var t := "s1e2";
    assert DigitRun(t, 4) == 0;
    assert DigitRun(t, 3) == 1;
    assert t[2] == 'e' && !IsWhitespace(t[2]);
    assert DigitRun(t, 2) == 0;
    assert DigitRun(t, 1) == 1;
  }

  lemma SeasonEpisodeOfS01E02()
    ensures SeasonEpisode("S01E02") == Some(Identifier(1, 2))
  {
    MatchOfS01E02();
    assert "01"[..1] == "0" && "02"[..1] == "0" && "0"[..0] == "";
    assert Parse("0") == 0;
    assert "S01E02"[1..3] == "01" && "S01E02"[4..6] == "02";
    assert Captured("S01E02", 0, Shape(2, 0, 2)) == Identifier(1, 2);
  }

  lemma SeasonEpisodeOfS1E2()
    ensures SeasonEpisode("s1e2") == Some(Identifier(1, 2))
  {
    MatchOfS1E2();
    assert "1"[..0] == "" && "2"[..0] == "";
    assert "s1e2"[1..2] == "1" && "s1e2"[3..4] == "2";
    assert Captured("s1e2", 0, Shape(1, 0, 1)) == Identifier(1, 2);
  }

  /** `S01E02` and `s1e2` carry the same identifier, season 1 and episode 2, under the key `1-2`. */
  lemma LeadingZerosDisappear()
    ensures SeasonEpisode("S01E02") == SeasonEpisode("s1e2") == Some(Identifier(1, 2))
    ensures Key(Identifier(1, 2)) == "1-2"
  {
    SeasonEpisodeOfS01E02();
    SeasonEpisodeOfS1E2();
  }

  /** One space may separate the season from the episode, and zero is an ordinary value. */
  lemma SpacedZeroIdentifier()
    ensures SeasonEpisode("s0 e0") == Some(Identifier(0, 0))
  {
    var s := "s0 e0";
    assert DigitRun(s, 5) == 0;
    assert DigitRun(s, 4) == 1;
    assert s[2] == ' ' && IsWhitespace(s[2]) && IsLetterE(s[3]);
    assert DigitRun(s, 2) == 0;
    assert DigitRun(s, 1) == 1;
    assert MatchAt(s, 0) == Some(Shape(1, 1, 1));
    assert s[1..2] == "0" && s[4..5] == "0" && "0"[..0] == "";
  }
}
