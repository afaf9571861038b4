/**
 * The string operations the report is built from: Java's String.replaceAll for a
 * literal placeholder, and joining rendered pairs with a separator.
 */
module Text {

  /** The pattern occurs in s starting at index i. */
  predicate OccursAt(s: string, pat: string, i: nat)
  {
    i + |pat| <= |s| && s[i..i + |pat|] == pat
  }

  ghost predicate Contains(s: string, pat: string)
  {
    exists i: nat :: OccursAt(s, pat, i)
  }

  /**
   * s.replaceAll(pat, rep) for a pattern that matches itself literally and a
   * replacement without '$' or '\': scanning from the left, every match is replaced
   * and scanning resumes after it.
   */
  function Replace(s: string, pat: string, rep: string): string
    requires pat != []
    decreases |s|
  {
    if |s| < |pat| then s
    else if s[..|pat|] == pat then rep + Replace(s[|pat|..], pat, rep)
    else [s[0]] + Replace(s[1..], pat, rep)
  }

  /** A character that cannot start the pattern is copied. */
  lemma ReplaceSkip(c: char, s: string, pat: string, rep: string)
    requires pat != [] && c != pat[0]
    ensures Replace([c] + s, pat, rep) == [c] + Replace(s, pat, rep)
  {
    assert ([c] + s)[1..] == s;
  }

  /** A match at the front is replaced; a rest too short for another match is copied. */
  lemma ReplaceMatch(s: string, pat: string, rep: string)
    requires pat != []
    ensures Replace(pat + s, pat, rep) == rep + Replace(s, pat, rep)
    ensures |s| < |pat| ==> Replace(s, pat, rep) == s
  {
    assert (pat + s)[..|pat|] == pat;
    assert (pat + s)[|pat|..] == s;
  }

  /** The parts joined, with sep between neighbours and nowhere else. */
  function Join(parts: seq<string>, sep: string): string
  {
    if parts == [] then ""
    else if |parts| == 1 then parts[0]
    else parts[0] + sep + Join(parts[1..], sep)
  }

  /**
   * The cuts of s at the matches of pat that Replace finds: rejoined with pat they
   * give s back, and none of them contains pat.
   */
  function Split(s: string, pat: string): (parts: seq<string>)
    requires pat != []
    ensures |parts| >= 1
    ensures Join(parts, pat) == s
    ensures forall i :: 0 <= i < |parts| ==> !Contains(parts[i], pat)
    decreases |s|
  {
    if |s| < |pat| then
      NoRoom(s, pat);
      [s]
    else if s[..|pat|] == pat then
      var rest := Split(s[|pat|..], pat);
      NoRoom([], pat);
      assert s == pat + s[|pat|..];
      [""] + rest
    else
      var rest := Split(s[1..], pat);
      JoinPrefix(rest, pat);
      JoinExtendHead([s[0]], rest, pat);
      assert s == [s[0]] + s[1..];
      NoMatchAfterCons(s, rest[0], pat);
      [[s[0]] + rest[0]] + rest[1..]
  }

  lemma NoRoom(s: string, pat: string)
    requires |s| < |pat|
    ensures !Contains(s, pat)
  {
  }

  /** The first part is a prefix of the joined string. */
  lemma JoinPrefix(parts: seq<string>, sep: string)
    requires parts != []
    ensures parts[0] <= Join(parts, sep)
  {
  }

  /** Growing the first part at its front grows the joined string at its front. */
  lemma JoinExtendHead(x: string, parts: seq<string>, sep: string)
    requires parts != []
    ensures Join([x + parts[0]] + parts[1..], sep) == x + Join(parts, sep)
  {
    var q := [x + parts[0]] + parts[1..];
    assert q[1..] == parts[1..];
  }

  /**
   * When s does not start with pat, a match inside [s[0]] + p (p a pattern-free
   * prefix of s[1..]) is impossible.
   */
  lemma NoMatchAfterCons(s: string, p: string, pat: string)
    requires pat != [] && |s| >= |pat| && s[..|pat|] != pat
    requires p <= s[1..] && !Contains(p, pat)
    ensures !Contains([s[0]] + p, pat)
  {
    var q := [s[0]] + p;
    forall i: nat
      ensures !OccursAt(q, pat, i)
    {
      if i + |pat| <= |q| {
        if i == 0 {
          assert q <= s;
          assert q[..|pat|] == s[..|pat|];
        } else {
          assert q[i..i + |pat|] == p[i - 1..i - 1 + |pat|];
          assert !OccursAt(p, pat, i - 1);
        }
      }
    }
  }

  /** Replacing is cutting at the matches and rejoining the cuts with the replacement. */
  lemma {:induction false} ReplaceIsSplitJoin(s: string, pat: string, rep: string)
    requires pat != []
    ensures Replace(s, pat, rep) == Join(Split(s, pat), rep)
    decreases |s|
  {
    if |s| < |pat| {
    } else if s[..|pat|] == pat {
      ReplaceIsSplitJoin(s[|pat|..], pat, rep);
      var rest := Split(s[|pat|..], pat);
      assert ([""] + rest)[1..] == rest;
    } else {
      ReplaceIsSplitJoin(s[1..], pat, rep);
      JoinExtendHead([s[0]], Split(s[1..], pat), rep);
    }
  }

  /** Without a match, replacing changes nothing. */
  lemma {:induction false} ReplaceWithoutMatch(s: string, pat: string, rep: string)
    requires pat != [] && !Contains(s, pat)
    ensures Replace(s, pat, rep) == s
    decreases |s|
  {
    if |s| >= |pat| {
      assert !OccursAt(s, pat, 0);
      forall i: nat
        ensures !OccursAt(s[1..], pat, i)
      {
        if OccursAt(s[1..], pat, i) {
          assert s[1..][i..i + |pat|] == s[i + 1..i + 1 + |pat|];
          assert OccursAt(s, pat, i + 1);
        }
      }
      ReplaceWithoutMatch(s[1..], pat, rep);
      assert s == [s[0]] + s[1..];
    }
  }

  /** Replacing the pattern by itself gives the string back. */
  lemma ReplaceBySelf(s: string, pat: string)
    requires pat != []
    ensures Replace(s, pat, pat) == s
  {
    ReplaceIsSplitJoin(s, pat, pat);
  }

  /** One more part adds one separator and that part at the end. */
  lemma {:induction false} JoinAppend(parts: seq<string>, p: string, sep: string)
    ensures Join(parts + [p], sep) == if parts == [] then p else Join(parts, sep) + sep + p
    decreases |parts|
  {
    if |parts| >= 2 {
      JoinAppend(parts[1..], p, sep);
      assert (parts + [p])[1..] == parts[1..] + [p];
    } else if |parts| == 1 {
      assert (parts + [p])[1..] == [p];
    }
  }

  /** The parts with sep standing between every two neighbours. */
  function Intersperse(parts: seq<string>, sep: string): (r: seq<string>)
    ensures |r| == if parts == [] then 0 else 2 * |parts| - 1
    ensures forall i :: 0 <= i < |r| ==> r[i] == if i % 2 == 0 then parts[i / 2] else sep
    decreases |parts|
  {
    if |parts| <= 1 then parts
    else [parts[0], sep] + Intersperse(parts[1..], sep)
  }

  function Concat(ss: seq<string>): string
  {
    if ss == [] then "" else ss[0] + Concat(ss[1..])
  }

  /**
   * Joining n parts writes them in order with exactly n - 1 separators: one between
   * every two neighbours, none before the first part and none after the last.
   */
  lemma {:induction false} JoinIsInterspersed(parts: seq<string>, sep: string)
    ensures Join(parts, sep) == Concat(Intersperse(parts, sep))
    decreases |parts|
  {
    if |parts| == 1 {
      assert Concat(parts) == parts[0] + Concat([]);
    } else if |parts| >= 2 {
      JoinIsInterspersed(parts[1..], sep);
      ConcatTwoInFront(parts[0], sep, Intersperse(parts[1..], sep));
    }
  }

  lemma ConcatTwoInFront(a: string, b: string, rest: seq<string>)
    ensures Concat([a, b] + rest) == a + b + Concat(rest)
  {
    var r := [a, b] + rest;
    assert r[1..] == [b] + rest;
    assert r[1..][1..] == rest;
  }
}
