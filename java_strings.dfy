/**
 * The few `java.lang.String` operations the simulator's configuration
 * handling relies on: `trim`, `startsWith`, `equalsIgnoreCase`,
 * `split("\\s")` and the decimal rendering of an `int` in string
 * concatenation.  Case folding is restricted to ASCII letters.
 */
module JavaStrings {

  /** `trim` removes every leading and trailing character up to U+0020. */
  predicate IsTrimmed(c: char) {
    c <= ' '
  }

  /** The characters the regular expression `\s` matches. */
  predicate IsRegexSpace(c: char) {
    c == ' ' || c == '\t' || c == '\n' || c == '\U{B}' || c == '\U{C}' || c == '\r'
  }

  /* ---------------------------------------------------------------------
   * trim
   * ------------------------------------------------------------------- */

  function TrimStart(s: string): (r: string)
    ensures |r| <= |s| && r == s[|s| - |r|..]
    ensures forall i :: 0 <= i < |s| - |r| ==> IsTrimmed(s[i])
    ensures r == [] || !IsTrimmed(r[0])
  {
    if s != [] && IsTrimmed(s[0]) then
      var r := TrimStart(s[1..]);
      assert s[1..][|s| - 1 - |r|..] == s[|s| - |r|..];
      assert forall i :: 1 <= i < |s| - |r| ==> s[i] == s[1..][i - 1];
      r
    else s
  }

  function TrimEnd(s: string): (r: string)
    ensures |r| <= |s| && r == s[..|r|]
    ensures forall i :: |r| <= i < |s| ==> IsTrimmed(s[i])
    ensures r == [] || !IsTrimmed(r[|r| - 1])
  {
    if s != [] && IsTrimmed(s[|s| - 1]) then
      var r := TrimEnd(s[..|s| - 1]);
      assert s[..|s| - 1][..|r|] == s[..|r|];
      r
    else s
  }

  /** How many leading characters `trim` drops. */
  function TrimOffset(s: string): nat {
    |s| - |TrimStart(s)|
  }

  /**
   * `String.trim`: the infix of `s` left after dropping every character up
   * to U+0020 from both ends.
   */
  function Trim(s: string): (r: string)
    ensures TrimOffset(s) + |r| <= |s| && r == s[TrimOffset(s)..TrimOffset(s) + |r|]
    ensures forall i :: 0 <= i < TrimOffset(s) ==> IsTrimmed(s[i])
    ensures forall i :: TrimOffset(s) + |r| <= i < |s| ==> IsTrimmed(s[i])
    ensures r == [] || (!IsTrimmed(r[0]) && !IsTrimmed(r[|r| - 1]))
    ensures r == [] <==> forall c :: c in s ==> IsTrimmed(c)
  {
    var t := TrimStart(s);
    var r := TrimEnd(t);
    InfixOfInfix(s, t, r);
    TrimmedEmpty(s, t, r);
    r
  }

  /** A prefix `r` of a suffix `t` of `s`, cut off by trimmed characters only, is an infix of `s`. */
  lemma InfixOfInfix(s: string, t: string, r: string)
    requires |t| <= |s| && t == s[|s| - |t|..]
    requires |r| <= |t| && r == t[..|r|]
    requires forall i :: |r| <= i < |t| ==> IsTrimmed(t[i])
    ensures r == s[|s| - |t|..|s| - |t| + |r|]
    ensures forall i :: |s| - |t| + |r| <= i < |s| ==> IsTrimmed(s[i])
    ensures r != [] ==> r[0] == t[0]
  {
    var k := |s| - |t|;
    assert r == s[k..][..|r|];
    forall i | k + |r| <= i < |s| ensures IsTrimmed(s[i]) {
      assert s[i] == t[i - k];
    }
  }

  /** Nothing is left exactly when every character is trimmed. */
  lemma TrimmedEmpty(s: string, t: string, r: string)
    requires |t| <= |s| && t == s[|s| - |t|..]
    requires forall i :: 0 <= i < |s| - |t| ==> IsTrimmed(s[i])
    requires t == [] || !IsTrimmed(t[0])
    requires |r| <= |t| && r == t[..|r|]
    requires forall i :: |r| <= i < |t| ==> IsTrimmed(t[i])
    ensures r == [] <==> forall c :: c in s ==> IsTrimmed(c)
  {
    var k := |s| - |t|;
    if r == [] {
      assert t == [];
      forall c | c in s ensures IsTrimmed(c) {
        var i :| 0 <= i < |s| && s[i] == c;
      }
    } else {
      assert r[0] == t[0] == s[k];
    }
  }

  lemma TrimStartOfClean(s: string)
    requires s == [] || !IsTrimmed(s[0])
    ensures TrimStart(s) == s
  {
  }

  lemma TrimEndOfClean(s: string)
    requires s == [] || !IsTrimmed(s[|s| - 1])
    ensures TrimEnd(s) == s
  {
  }

  /** Trimming twice trims no more than trimming once. */
  lemma TrimIdempotent(s: string)
    ensures Trim(Trim(s)) == Trim(s)
  {
    var r := Trim(s);
    TrimStartOfClean(r);
    TrimEndOfClean(r);
  }

  /* ---------------------------------------------------------------------
   * startsWith, equalsIgnoreCase
   * ------------------------------------------------------------------- */

  /** `startsWith`: `s` is `prefix` followed by something. */
  predicate StartsWith(s: string, prefix: string)
    ensures StartsWith(s, prefix) <==> exists t :: s == prefix + t
  {
    var ok := |prefix| <= |s| && s[..|prefix|] == prefix;
    assert ok ==> s == prefix + s[|prefix|..];
    ok
  }

  function ToLower(c: char): char {
    if 'A' <= c <= 'Z' then (c as int + 32) as char else c
  }

  /** Every letter of `s` in lower case. */
  function Lower(s: string): (r: string)
    ensures |r| == |s| && forall i :: 0 <= i < |s| ==> r[i] == ToLower(s[i])
  {
    if s == [] then [] else [ToLower(s[0])] + Lower(s[1..])
  }

  /** `equalsIgnoreCase`: the two strings agree character by character once case is folded. */
  predicate EqualsIgnoreCase(a: string, b: string)
    ensures EqualsIgnoreCase(a, b) <==> Lower(a) == Lower(b)
  {
    var ok := |a| == |b| && forall i :: 0 <= i < |a| ==> ToLower(a[i]) == ToLower(b[i]);
    assert Lower(a) == Lower(b) ==> forall i :: 0 <= i < |a| ==> Lower(a)[i] == Lower(b)[i];
    ok
  }

  /** Case-insensitive equality is an equivalence relation. */
  lemma EqualsIgnoreCaseIsEquivalence(a: string, b: string, c: string)
    ensures EqualsIgnoreCase(a, a)
    ensures EqualsIgnoreCase(a, b) ==> EqualsIgnoreCase(b, a)
    ensures EqualsIgnoreCase(a, b) && EqualsIgnoreCase(b, c) ==> EqualsIgnoreCase(a, c)
  {
  }

  /* ---------------------------------------------------------------------
   * split("\\s")
   * ------------------------------------------------------------------- */

  function SpaceCount(s: string): nat {
    if s == [] then 0 else (if IsRegexSpace(s[0]) then 1 else 0) + SpaceCount(s[1..])
  }

  predicate IsWord(w: string) {
    forall c :: c in w ==> !IsRegexSpace(c)
  }

  /** The text between consecutive separators, empty pieces included. */
  function Pieces(s: string): (r: seq<string>)
    ensures |r| == SpaceCount(s) + 1
    ensures forall w :: w in r ==> IsWord(w)
  {
    if s == [] then [[]]
    else
      var rest := Pieces(s[1..]);
      if IsRegexSpace(s[0]) then [[]] + rest
      else
        assert rest[0] in rest;
        assert forall w :: w in rest[1..] ==> w in rest;
        [[s[0]] + rest[0]] + rest[1..]
  }

  /** The whitespace characters of `s`, in order. */
  function Separators(s: string): (r: string)
    ensures |r| == SpaceCount(s)
    ensures forall c :: c in r ==> IsRegexSpace(c)
  {
    if s == [] then []
    else (if IsRegexSpace(s[0]) then [s[0]] else []) + Separators(s[1..])
  }

  /** The pieces with the separators put back between them. */
  function Join(ps: seq<string>, seps: string): string
    requires |ps| == |seps| + 1
    decreases |seps|
  {
    if seps == [] then ps[0] else ps[0] + [seps[0]] + Join(ps[1..], seps[1..])
  }

  /** Putting the separators back between the pieces gives the string back. */
  lemma {:induction false} PiecesJoin(s: string)
    ensures Join(Pieces(s), Separators(s)) == s
  {
    if s != [] {
      var rest, seps := Pieces(s[1..]), Separators(s[1..]);
      PiecesJoin(s[1..]);
      if IsRegexSpace(s[0]) {
        assert Pieces(s) == [[]] + rest && Separators(s) == [s[0]] + seps;
        assert ([[]] + rest)[1..] == rest;
        assert Join(Pieces(s), Separators(s)) == [s[0]] + Join(rest, seps);
      } else {
        assert Pieces(s) == [[s[0]] + rest[0]] + rest[1..] && Separators(s) == seps;
        JoinOntoFirst(s[0], rest, seps);
      }
      assert [s[0]] + s[1..] == s;
    }
  }

  lemma JoinOntoFirst(c: char, ps: seq<string>, seps: string)
    requires |ps| == |seps| + 1
    ensures Join([[c] + ps[0]] + ps[1..], seps) == [c] + Join(ps, seps)
  {
    var qs := [[c] + ps[0]] + ps[1..];
    if seps == [] {
      assert Join(qs, seps) == qs[0];
    } else {
      assert qs[0] == [c] + ps[0] && qs[1..] == ps[1..];
      assert Join(qs, seps) == qs[0] + [seps[0]] + Join(qs[1..], seps[1..]);
      assert Join(ps, seps) == ps[0] + [seps[0]] + Join(ps[1..], seps[1..]);
    }
  }

  function DropTrailingEmpty(ps: seq<string>): (r: seq<string>)
    ensures |r| <= |ps| && r == ps[..|r|]
    ensures forall i :: |r| <= i < |ps| ==> ps[i] == []
    ensures r == [] || r[|r| - 1] != []
  {
    if ps != [] && ps[|ps| - 1] == [] then DropTrailingEmpty(ps[..|ps| - 1]) else ps
  }

  /**
   * `String.split("\\s")`: the pieces between whitespace characters, with
   * trailing empty pieces removed; a string with no whitespace at all is
   * returned whole, even when it is empty.
   */
  function Split(s: string): (r: seq<string>)
    ensures forall w :: w in r ==> IsWord(w)
    ensures SpaceCount(s) > 0 ==> r == [] || r[|r| - 1] != []
    ensures |r| <= SpaceCount(s) + 1
    ensures SpaceCount(s) == 0 ==> r == [s]
    ensures SpaceCount(s) > 0 ==> r == Pieces(s)[..|r|]
    ensures SpaceCount(s) > 0 ==> forall i :: |r| <= i < |Pieces(s)| ==> Pieces(s)[i] == []
  {
    if SpaceCount(s) == 0 then
      assert s == Pieces(s)[0] by { WordPiece(s); }
      [s]
    else DropTrailingEmpty(Pieces(s))
  }

  lemma {:induction false} WordPiece(w: string)
    requires SpaceCount(w) == 0
    ensures Pieces(w) == [w]
  {
    if w != [] {
      WordPiece(w[1..]);
      assert [w[0]] + w[1..] == w;
    }
  }

  lemma {:induction false} WordCount(w: string)
    requires IsWord(w)
    ensures SpaceCount(w) == 0
  {
    if w != [] {
      assert w[0] in w;
      assert forall c :: c in w[1..] ==> c in w;
      WordCount(w[1..]);
    }
  }

  lemma {:induction false} SpaceFreeIsWord(w: string)
    requires SpaceCount(w) == 0
    ensures IsWord(w)
  {
    if w != [] {
      SpaceFreeIsWord(w[1..]);
      assert w == [w[0]] + w[1..];
    }
  }

  /** A word followed by a separator becomes the first piece. */
  lemma {:induction false} PiecesAfterWord(w: string, c: char, t: string)
    requires IsWord(w) && IsRegexSpace(c)
    ensures Pieces(w + [c] + t) == [w] + Pieces(t)
  {
    if w == [] {
      assert [c] + t == w + [c] + t;
      assert ([c] + t)[1..] == t;
    } else {
      assert forall x :: x in w[1..] ==> x in w;
      PiecesAfterWord(w[1..], c, t);
      assert (w + [c] + t)[1..] == w[1..] + [c] + t;
      assert w[0] in w;
      assert [w[0]] + w[1..] == w;
    }
  }

  /** Non-empty words separated by single spaces split back into those words. */
  lemma SplitThreeWords(a: string, b: string, c: string)
    requires IsWord(a) && IsWord(b) && IsWord(c) && c != []
    ensures Split(a + " " + b + " " + c) == [a, b, c]
  {
    var s := a + " " + b + " " + c;
    assert s == a + [' '] + (b + [' '] + c);
    PiecesAfterWord(a, ' ', b + [' '] + c);
    PiecesAfterWord(b, ' ', c);
    WordCount(c);
    WordPiece(c);
    assert Pieces(s) == [a, b, c];
    assert SpaceCount(s) > 0 by {
      assert SpaceCount(s) + 1 == |Pieces(s)|;
    }
  }

  /** A word and a single-space-separated non-empty word split into the two. */
  lemma SplitTwoWords(a: string, b: string)
    requires IsWord(a) && IsWord(b) && b != []
    ensures Split(a + " " + b) == [a, b]
  {
    var s := a + " " + b;
    assert s == a + [' '] + b;
    PiecesAfterWord(a, ' ', b);
    WordCount(b);
    WordPiece(b);
    assert Pieces(s) == [a, b];
    assert SpaceCount(s) > 0 by {
      assert SpaceCount(s) + 1 == |Pieces(s)|;
    }
  }

  /* ---------------------------------------------------------------------
   * Decimal rendering of a non-negative int
   * ------------------------------------------------------------------- */

  predicate IsDigit(c: char) {
    '0' <= c <= '9'
  }

  predicate AllDigits(s: string) {
    forall i :: 0 <= i < |s| ==> IsDigit(s[i])
  }

  /** `Integer.toString` for a non-negative value: digits, no leading zero. */
  function NatToString(n: nat): (s: string)
    ensures |s| >= 1 && AllDigits(s)
    ensures s[0] == '0' ==> n == 0
  {
    if n < 10 then [(48 + n) as char]
    else NatToString(n / 10) + [(48 + n % 10) as char]
  }

  /** The value of a string of decimal digits. */
  function ParseNat(s: string): nat
    requires AllDigits(s)
  {
    if s == [] then 0 else ParseNat(s[..|s| - 1]) * 10 + (s[|s| - 1] as int - 48)
  }

  lemma {:induction false} ParseRendered(n: nat)
    ensures ParseNat(NatToString(n)) == n
  {
    if n >= 10 {
      ParseRendered(n / 10);
      var s := NatToString(n);
      assert s[..|s| - 1] == NatToString(n / 10);
    }
  }

  /** Distinct numbers are rendered differently. */
  lemma RenderInjective(m: nat, n: nat)
    requires NatToString(m) == NatToString(n)
    ensures m == n
  {
    ParseRendered(m);
    ParseRendered(n);
  }
}
