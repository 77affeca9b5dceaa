/**
  Wildcard patterns: what `?` and `*` mean, and the single-backtrack matching loop.
 */
module Glob {

  /** The recursive meaning of a pattern: `?` is any one character, `*` any run of
      characters, everything else itself. */
  ghost predicate Matches(pattern: string, name: string)
    decreases |pattern| + |name|
  {
    if pattern == [] then name == []
    else if pattern[0] == '*' then Matches(pattern[1..], name) || (name != [] && Matches(pattern, name[1..]))
    else name != [] && (pattern[0] == '?' || pattern[0] == name[0]) && Matches(pattern[1..], name[1..])
  }

  ghost predicate NoStar(pattern: string) {
    forall i :: 0 <= i < |pattern| ==> pattern[i] != '*'
  }

  /** A pattern that starts with a star takes any characters put in front of a name. */
  lemma {:induction false} StarAbsorbs(pattern: string, name: string, j: nat, k: nat)
    requires pattern != [] && pattern[0] == '*' && j <= k <= |name|
    requires Matches(pattern, name[k..])
    ensures Matches(pattern, name[j..])
    decreases k - j
  {
    if j < k {
      assert name[j..][1..] == name[j + 1..];
      StarAbsorbs(pattern, name, j + 1, k);
    }
  }

  /** A star-free stretch uses exactly its length. */
  lemma {:induction false} StretchConsumes(stretch: string, rest: string, name: string)
    requires NoStar(stretch) && Matches(stretch + rest, name)
    ensures |stretch| <= |name| && Matches(rest, name[|stretch|..])
    decreases |stretch|
  {
    if stretch == [] {
      assert stretch + rest == rest && name[0..] == name;
    } else {
      assert (stretch + rest)[1..] == stretch[1..] + rest;
      StretchConsumes(stretch[1..], rest, name[1..]);
      assert name[1..][|stretch| - 1..] == name[|stretch|..];
    }
  }

  /** What a star followed by a star-free stretch leaves for the rest. */
  lemma {:induction false} StarThenStretch(pattern: string, p: nat, next: nat, name: string, j: nat) returns (k: nat)
    requires p < next <= |pattern| && pattern[p] == '*' && NoStar(pattern[p + 1..next]) && j <= |name|
    requires Matches(pattern[p..], name[j..])
    ensures j + (next - p - 1) <= k <= |name| && Matches(pattern[next..], name[k..])
    decreases |name| - j
  {
    assert pattern[p..][1..] == pattern[p + 1..] == pattern[p + 1..next] + pattern[next..];
    if Matches(pattern[p + 1..], name[j..]) {
      StretchConsumes(pattern[p + 1..next], pattern[next..], name[j..]);
      k := j + (next - p - 1);
      assert name[j..][next - p - 1..] == name[k..];
    } else {
      assert name[j..][1..] == name[j + 1..];
      k := StarThenStretch(pattern, p, next, name, j + 1);
    }
  }

  /** Reaching another star, the older one need not be tried again. */
  lemma OlderStarIsCovered(pattern: string, p: nat, next: nat, name: string, n: nat)
    requires p < next < |pattern| && pattern[p] == pattern[next] == '*' && NoStar(pattern[p + 1..next])
    requires next - p - 1 <= n <= |name|
    requires n - (next - p - 1) + 1 <= |name| && Matches(pattern[p..], name[n - (next - p - 1) + 1..])
    ensures Matches(pattern[next..], name[n..])
  {
    var k := StarThenStretch(pattern, p, next, name, n - (next - p - 1) + 1);
    StarAbsorbs(pattern[next..], name, n, k);
  }

  // ---- what patterns mean as a whole -------------------------------------------------------

  function Joined(pieces: seq<string>): string {
    if pieces == [] then "" else pieces[0] + Joined(pieces[1..])
  }

  /** A star fits any piece of a name, a question mark a single character, and any other
      character the piece that it is. */
  predicate Fits(c: char, piece: string) {
    c == '*' || (|piece| == 1 && (c == '?' || piece[0] == c))
  }

  /** The name falls into as many pieces as the pattern has characters, each fitted by its own. */
  ghost predicate FallsInto(pattern: string, name: string, pieces: seq<string>) {
    && |pieces| == |pattern| && Joined(pieces) == name
    && forall i :: 0 <= i < |pattern| ==> Fits(pattern[i], pieces[i])
  }

  lemma {:induction false} PiecesMatch(pattern: string, name: string, pieces: seq<string>)
    requires FallsInto(pattern, name, pieces)
    ensures Matches(pattern, name)
    decreases |pattern|
  {
    if pattern != [] {
      var k := |pieces[0]|;
      assert name[..k] == pieces[0] && name[k..] == Joined(pieces[1..]);
      PiecesMatch(pattern[1..], name[k..], pieces[1..]);
      if pattern[0] == '*' {
        assert name[0..] == name;
        StarAbsorbs(pattern, name, 0, k);
      }
    }
  }

  lemma {:induction false} MatchHasPieces(pattern: string, name: string) returns (pieces: seq<string>)
    requires Matches(pattern, name)
    ensures FallsInto(pattern, name, pieces)
    decreases |pattern| + |name|
  {
    if pattern == [] {
      return [];
    }
    if pattern[0] == '*' && !Matches(pattern[1..], name) {
      var rest := MatchHasPieces(pattern, name[1..]);
      pieces := [[name[0]] + rest[0]] + rest[1..];
      assert pieces[1..] == rest[1..];
      assert Joined(pieces) == [name[0]] + Joined(rest);
    } else {
      var first := if pattern[0] == '*' then "" else [name[0]];
      var rest := MatchHasPieces(pattern[1..], name[|first|..]);
      pieces := [first] + rest;
      assert pieces[1..] == rest;
    }
  }

  /** A pattern matches exactly the names that fall into fitting pieces. */
  lemma MatchesByPieces(pattern: string, name: string)
    ensures Matches(pattern, name) <==> exists pieces :: FallsInto(pattern, name, pieces)
  {
    if Matches(pattern, name) {
      var pieces := MatchHasPieces(pattern, name);
    }
    if pieces :| FallsInto(pattern, name, pieces) {
      PiecesMatch(pattern, name, pieces);
    }
  }

  /** A text without wildcards is itself at the start of the name. */
  lemma {:induction false} TextFirst(text: string, rest: string, name: string)
    requires '?' !in text && '*' !in text
    ensures Matches(text + rest, name) <==> text <= name && Matches(rest, name[|text|..])
    decreases |text|
  {
    if text == [] {
      assert text + rest == rest && name[0..] == name;
    } else {
      assert (text + rest)[0] == text[0] && (text + rest)[1..] == text[1..] + rest;
      if name != [] {
        TextFirst(text[1..], rest, name[1..]);
        if |text| <= |name| {
          assert name[1..][|text| - 1..] == name[|text|..];
        }
        assert text == [text[0]] + text[1..] && name == [name[0]] + name[1..];
      }
    }
  }

  /** A star is any number of characters. */
  lemma {:induction false} StarFirst(rest: string, name: string)
    ensures Matches(['*'] + rest, name) <==> exists k :: 0 <= k <= |name| && Matches(rest, name[k..])
    decreases |name|
  {
    var pattern := ['*'] + rest;
    assert pattern[1..] == rest && name[0..] == name;
    if Matches(pattern, name) && !Matches(rest, name) {
      StarFirst(rest, name[1..]);
      var k :| 0 <= k <= |name[1..]| && Matches(rest, name[1..][k..]);
      assert name[1..][k..] == name[k + 1..];
    }
    if k :| 0 <= k <= |name| && Matches(rest, name[k..]) {
      StarAbsorbs(pattern, name, 0, k);
    }
  }

  lemma StarMatchesAll(name: string)
    ensures Matches("*", name)
  {
    StarFirst("", name);
    assert ['*'] + "" == "*" && name[|name|..] == "";
  }

  /** The name starts with a text, ends with it, or holds it somewhere. */
  ghost predicate Contains(name: string, text: string) {
    exists i :: 0 <= i <= |name| && text <= name[i..]
  }

  ghost predicate EndsWith(name: string, text: string) {
    |text| <= |name| && name[|name| - |text|..] == text
  }

  lemma TextThenStar(text: string, name: string)
    requires '?' !in text && '*' !in text
    ensures Matches(text + "*", name) <==> text <= name
  {
    TextFirst(text, "*", name);
    if text <= name {
      StarMatchesAll(name[|text|..]);
    }
  }

  lemma StarThenText(text: string, name: string)
    requires '?' !in text && '*' !in text
    ensures Matches("*" + text, name) <==> EndsWith(name, text)
  {
    StarFirst(text, name);
    assert ['*'] + text == "*" + text && text + "" == text;
    forall k | 0 <= k <= |name| ensures Matches(text, name[k..]) <==> name[k..] == text {
      TextFirst(text, "", name[k..]);
    }
  }

  lemma StarTextStar(text: string, name: string)
    requires '?' !in text && '*' !in text
    ensures Matches("*" + (text + "*"), name) <==> Contains(name, text)
  {
    StarFirst(text + "*", name);
    assert ['*'] + (text + "*") == "*" + (text + "*");
    forall k | 0 <= k <= |name| ensures Matches(text + "*", name[k..]) <==> text <= name[k..] {
      TextThenStar(text, name[k..]);
    }
  }

  // ---- the loop -------------------------------------------------------------------------------

  /**
    The matching loop. After a failure it restarts only from the most recent star,
    with one more character given to it.
   */
  method PatternMatchesString(name: string, pattern: string) returns (matches: bool)
    ensures matches <==> Matches(pattern, name)
  {
    var p: nat, n: nat := 0, 0;
    var patternNext: nat, nameNext: nat := 0, 0;
    assert pattern[0..] == pattern && name[0..] == name;
    while p < |pattern| || n < |name|
      invariant patternNext <= p <= |pattern| && n <= |name| && nameNext <= |name| + 1
      invariant nameNext > 0 ==>
                  && patternNext < |pattern| && pattern[patternNext] == '*'
                  && (if p == patternNext then n == nameNext
                      else NoStar(pattern[patternNext + 1..p]) && n == nameNext - 1 + (p - patternNext - 1))
      invariant nameNext == 0 ==> patternNext == 0
      invariant Matches(pattern, name) <==>
                  Matches(pattern[p..], name[n..]) ||
                  (0 < nameNext <= |name| && Matches(pattern[patternNext..], name[nameNext..]))
      decreases |pattern| - patternNext,
                2 * (|name| + 1 - nameNext) + (if nameNext == 0 || p > patternNext then 1 else 0),
                |pattern| - p
    {
      if p < |pattern| {
        assert pattern[p..][1..] == pattern[p + 1..];
        if pattern[p] == '*' {
          if nameNext > 0 && p != patternNext && nameNext <= |name| &&
            Matches(pattern[patternNext..], name[nameNext..]) {
            OlderStarIsCovered(pattern, patternNext, p, name, n);
          }
          if n < |name| {
            assert name[n..][1..] == name[n + 1..];
          }
          patternNext := p;
          nameNext := n + 1;
          p := p + 1;
          continue;
        }
        if n < |name| && (pattern[p] == '?' || name[n] == pattern[p]) {
          assert name[n..][1..] == name[n + 1..];
          if nameNext > 0 {
            assert pattern[patternNext + 1..p + 1] == pattern[patternNext + 1..p] + [pattern[p]];
          }
          p := p + 1;
          n := n + 1;
          continue;
        }
      }
      assert !Matches(pattern[p..], name[n..]);
      if 0 < nameNext <= |name| {
        p := patternNext;
        n := nameNext;
        continue;
      }
      return false;
    }
    return true;
  }
}
