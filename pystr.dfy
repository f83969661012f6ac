/**
  The operations on Python `str` that the index-building script relies on:
  `s.find(sub)`, `sub in s`, `s.replace(pat, rep)`, `s.split(sep)` for a
  one-character separator, and `sep.join(parts)` as its inverse.
  Strings are sequences of characters; there is no encoding here.
 */
module PyStr {

  /** `s` begins with `p` (Python's `s.startswith(p)`). */
  predicate StartsWith(s: string, p: string)
  {
    |p| <= |s| && s[..|p|] == p
  }

  /** `sub` occurs in `s` at index `j`. */
  predicate MatchAt(s: string, sub: string, j: int)
    requires 0 <= j <= |s|
  {
    StartsWith(s[j..], sub)
  }

  /** Python's `s.find(sub)`: the index of the first occurrence of `sub` in `s`, or -1. */
  function Find(s: string, sub: string): (r: int)
    ensures r == -1 || 0 <= r <= |s| - |sub|
    ensures r >= 0 ==> MatchAt(s, sub, r)
    ensures r >= 0 ==> forall j :: 0 <= j < r ==> !MatchAt(s, sub, j)
    ensures r == -1 ==> forall j :: 0 <= j <= |s| ==> !MatchAt(s, sub, j)
    decreases |s|
  {
    if StartsWith(s, sub) then
      assert s[0..] == s;
      0
    else if s == [] then -1
    else
      assert forall j :: 1 <= j <= |s| ==> MatchAt(s, sub, j) == MatchAt(s[1..], sub, j - 1) by {
        forall j | 1 <= j <= |s| ensures s[j..] == s[1..][j - 1..] { }
      }
      var k := Find(s[1..], sub);
      if k < 0 then -1 else k + 1
  }

  /** Python's `sub in s` on strings. */
  predicate Contains(s: string, sub: string)
  {
    Find(s, sub) >= 0
  }

  /**
    Python's `s.replace(pat, rep)`, computed the way CPython does it: find the
    first occurrence of `pat`, keep what precedes it, emit `rep` and go on
    after the occurrence, so that every non-overlapping occurrence, scanning
    from the left, is replaced. An empty `pat` matches before every character
    and at the end.
   */
  function ReplaceAll(s: string, pat: string, rep: string): string
    decreases |s|
  {
    if pat == [] then
      if s == [] then rep else rep + [s[0]] + ReplaceAll(s[1..], pat, rep)
    else
      var i := Find(s, pat);
      if i < 0 then s else s[..i] + rep + ReplaceAll(s[i + |pat|..], pat, rep)
  }

  /** Python's `s.split(sep)` for a one-character separator. */
  function Split(s: string, sep: char): (parts: seq<string>)
    ensures |parts| >= 1
    decreases |s|
  {
    FindChar(s, sep);
    var i := Find(s, [sep]);
    if i < 0 then [s] else [s[..i]] + Split(s[i + 1..], sep)
  }

  /** Python's `sep.join(parts)` for a non-empty list. */
  function Join(parts: seq<string>, sep: char): string
    requires |parts| >= 1
  {
    if |parts| == 1 then parts[0] else parts[0] + [sep] + Join(parts[1..], sep)
  }

  /** A one-character pattern occurs exactly where that character stands. */
  lemma MatchAtChar(s: string, c: char, j: int)
    requires 0 <= j < |s|
    ensures MatchAt(s, [c], j) <==> s[j] == c
  {
    assert s[j..][..1] == [s[j]];
  }

  /** `Find` on a one-character pattern, stated in terms of characters. */
  lemma FindChar(s: string, c: char)
    ensures var r := Find(s, [c]);
      && (r == -1 <==> c !in s)
      && (r >= 0 ==> r < |s| && s[r] == c && c !in s[..r])
  {
    var r := Find(s, [c]);
    if r >= 0 {
      MatchAtChar(s, c, r);
      forall j | 0 <= j < r ensures s[..r][j] != c {
        MatchAtChar(s, c, j);
      }
    } else {
      forall j | 0 <= j < |s| ensures s[j] != c {
        MatchAtChar(s, c, j);
      }
    }
  }

  /** A pattern holding a character that `s` lacks does not occur in `s`. */
  lemma AbsentCharExcludes(s: string, sub: string, c: char)
    requires c in sub && c !in s
    ensures !Contains(s, sub)
  {
  }

  /** An occurrence at the very start is the first one, and `replace` consumes it. */
  lemma ReplaceAllAtStart(s: string, pat: string, rep: string)
    requires |pat| > 0 && StartsWith(s, pat)
    ensures ReplaceAll(s, pat, rep) == rep + ReplaceAll(s[|pat|..], pat, rep)
  {
    var i := Find(s, pat);
    assert i == 0;
    var tail := ReplaceAll(s[i + |pat|..], pat, rep);
    assert ReplaceAll(s, pat, rep) == s[..i] + rep + tail;
    assert s[..i] + rep == rep;
  }

  /** A `replace` whose non-empty pattern does not occur changes nothing. */
  lemma ReplaceAllAbsent(s: string, pat: string, rep: string)
    requires pat != [] && !Contains(s, pat)
    ensures ReplaceAll(s, pat, rep) == s
  {
  }

  /** An occurrence that ends within a prefix `c` of `s` is an occurrence in `c`. */
  lemma MatchInPrefix(s: string, c: string, sub: string, j: int)
    requires |c| <= |s| && s[..|c|] == c
    requires 0 <= j && j + |sub| <= |c|
    ensures MatchAt(s, sub, j) <==> MatchAt(c, sub, j)
  {
    var w := s[j..][..|sub|];
    var v := c[j..][..|sub|];
    forall k | 0 <= k < |sub| ensures w[k] == v[k] {
      assert w[k] == s[j + k] && v[k] == c[j + k];
    }
    assert w == v;
  }

  /**
    The first occurrence of `pat` in `a + pat + b`, when no occurrence ends
    before the end of that `pat`, is the one after `a`: `replace` keeps `a`,
    emits `rep` and goes on in `b`.
   */
  lemma ReplaceAllCons(a: string, pat: string, b: string, rep: string)
    requires pat != [] && !Contains(a + pat[..|pat| - 1], pat)
    ensures ReplaceAll(a + pat + b, pat, rep) == a + rep + ReplaceAll(b, pat, rep)
  {
    var s := a + pat + b;
    var c := a + pat[..|pat| - 1];
    assert MatchAt(s, pat, |a|) by { assert s[|a|..][..|pat|] == pat; }
    assert s[..|c|] == c;
    forall j | 0 <= j < |a| ensures !MatchAt(s, pat, j) {
      MatchInPrefix(s, c, pat, j);
    }
    var i := Find(s, pat);
    assert i == |a|;
    assert s[..i] == a;
    assert s[i + |pat|..] == b;
  }

  /**
    The first `i` characters lack `c`, `s[i]` is `c`, and `tail` is the
    character-by-character replacement of what follows: then `s[..i] + [d] +
    tail` is the character-by-character replacement of all of `s`.
   */
  lemma ReplaceCharStep(s: string, c: char, d: char, i: int, tail: string)
    requires 0 <= i < |s| && s[i] == c && c !in s[..i]
    requires |tail| == |s| - i - 1
    requires forall j :: i < j < |s| ==> tail[j - i - 1] == (if s[j] == c then d else s[j])
    ensures var r := s[..i] + [d] + tail;
      && |r| == |s|
      && forall j :: 0 <= j < |s| ==> r[j] == (if s[j] == c then d else s[j])
  {
    var r := s[..i] + [d] + tail;
    forall j | 0 <= j < |s| ensures r[j] == (if s[j] == c then d else s[j]) {
      if j < i {
        assert r[j] == s[..i][j];
      } else if j > i {
        assert r[j] == tail[j - i - 1];
      }
    }
  }

  /** Replacing a character that does not occur changes nothing. */
  lemma ReplaceCharNone(s: string, c: char, d: char)
    requires c !in s
    ensures ReplaceAll(s, [c], [d]) == s
  {
    FindChar(s, c);
  }

  /** Replacing `c` in `a + [c] + b`, where `a` lacks `c`, replaces that `c` and goes on in `b`. */
  lemma ReplaceCharCons(a: string, b: string, c: char, d: char)
    requires c !in a
    ensures ReplaceAll(a + [c] + b, [c], [d]) == a + [d] + ReplaceAll(b, [c], [d])
  {
    var s := a + [c] + b;
    FindChar(s, c);
    assert s[..|a|] == a;
    assert s[|a|] == c;
    assert Find(s, [c]) == |a|;
    assert s[|a| + 1..] == b;
  }

  /** Replacing one character by another maps the string character by character. */
  lemma {:induction false} ReplaceChar(s: string, c: char, d: char)
    ensures var r := ReplaceAll(s, [c], [d]);
      && |r| == |s|
      && forall j :: 0 <= j < |s| ==> r[j] == (if s[j] == c then d else s[j])
    decreases |s|
  {
    FindChar(s, c);
    var i := Find(s, [c]);
    if i >= 0 {
      var rest := s[i + 1..];
      ReplaceChar(rest, c, d);
      var tail := ReplaceAll(rest, [c], [d]);
      assert forall j :: i < j < |s| ==> s[j] == rest[j - i - 1];
      ReplaceCharStep(s, c, d, i, tail);
    }
  }

  /** After replacing `c` by a different character, `c` no longer occurs. */
  lemma ReplaceCharRemoves(s: string, c: char, d: char)
    requires c != d
    ensures c !in ReplaceAll(s, [c], [d])
  {
    ReplaceChar(s, c, d);
  }

  /** One step of `Split`: the piece before the first `sep`, then the split of the rest. */
  lemma SplitUnfold(s: string, sep: char)
    ensures var i := Find(s, [sep]);
      Split(s, sep) == if i < 0 then [s] else [s[..i]] + Split(s[i + 1..], sep)
  {
  }

  /** `split` and `join` are inverse: joining the pieces gives the string back. */
  lemma {:induction false} JoinSplit(s: string, sep: char)
    ensures Join(Split(s, sep), sep) == s
    decreases |s|
  {
    FindChar(s, sep);
    SplitUnfold(s, sep);
    var i := Find(s, [sep]);
    if i >= 0 {
      var rest := s[i + 1..];
      JoinSplit(rest, sep);
      JoinOfCons(s, sep, i, Split(rest, sep));
    }
  }

  /** Joining `[s[..i]] + tail`, where `tail` joins to what follows the `sep` at `i`, gives `s`. */
  lemma JoinOfCons(s: string, sep: char, i: int, tail: seq<string>)
    requires 0 <= i < |s| && s[i] == sep && |tail| >= 1
    requires Join(tail, sep) == s[i + 1..]
    ensures Join([s[..i]] + tail, sep) == s
  {
    JoinCons(s[..i], tail, sep);
    assert s == s[..i] + [sep] + s[i + 1..];
  }

  /** Joining a list with a new head puts the head and a separator in front. */
  lemma JoinCons(head: string, tail: seq<string>, sep: char)
    requires |tail| >= 1
    ensures Join([head] + tail, sep) == head + [sep] + Join(tail, sep)
  {
    assert ([head] + tail)[1..] == tail;
  }

  /** `s.split(sep)[0]`: the prefix of `s` up to its first `sep`, or all of `s`. */
  lemma SplitFirst(s: string, sep: char)
    ensures var f := Split(s, sep)[0];
      && StartsWith(s, f)
      && sep !in f
      && (f == s || s[|f|] == sep)
  {
    FindChar(s, sep);
    SplitUnfold(s, sep);
    var i := Find(s, [sep]);
    if i >= 0 {
      assert Split(s, sep)[0] == s[..i];
    } else {
      assert Split(s, sep)[0] == s;
    }
  }

  /** `s.split(sep)[-1]`: the suffix of `s` after its last `sep`, or all of `s`. */
  lemma {:induction false} SplitLast(s: string, sep: char)
    ensures LastPiece(s, sep, Split(s, sep))
    decreases |s|
  {
    FindChar(s, sep);
    SplitUnfold(s, sep);
    var i := Find(s, [sep]);
    if i < 0 {
      assert s[|s| - |s|..] == s;
    } else {
      var rest := s[i + 1..];
      SplitLast(rest, sep);
      LastOfCons(s, sep, i, Split(rest, sep));
    }
  }

  /** `parts[-1]`. */
  function LastOf(parts: seq<string>): string
    requires |parts| >= 1
  {
    parts[|parts| - 1]
  }

  /** The last of `parts` has no `sep` and is what follows the last `sep` of `s`. */
  predicate LastPiece(s: string, sep: char, parts: seq<string>)
  {
    |parts| >= 1 && sep !in LastOf(parts) && AfterLast(s, sep, LastOf(parts))
  }

  /** The last piece of `[s[..i]] + tail` is that of `tail`, and it follows the last `sep` of `s`. */
  lemma LastOfCons(s: string, sep: char, i: int, tail: seq<string>)
    requires 0 <= i < |s| && s[i] == sep
    requires LastPiece(s[i + 1..], sep, tail)
    ensures LastPiece(s, sep, [s[..i]] + tail)
  {
    var parts := [s[..i]] + tail;
    assert parts[|parts| - 1] == tail[|tail| - 1];
    AfterLastStep(s, sep, i, tail[|tail| - 1]);
  }

  /** `l` is a suffix of `s` that is all of `s` or follows a `sep`. */
  predicate AfterLast(s: string, sep: char, l: string)
  {
    |l| <= |s| && s[|s| - |l|..] == l && (l == s || s[|s| - |l| - 1] == sep)
  }

  /** What follows the last `sep` of `s[i + 1..]` follows the last `sep` of `s`, when `s[i]` is `sep`. */
  lemma AfterLastStep(s: string, sep: char, i: int, l: string)
    requires 0 <= i < |s| && s[i] == sep
    requires AfterLast(s[i + 1..], sep, l)
    ensures AfterLast(s, sep, l)
  {
    var rest := s[i + 1..];
    assert s[|s| - |l|..] == rest[|rest| - |l|..];
    if l == rest {
      assert |s| - |l| - 1 == i;
    } else {
      assert s[|s| - |l| - 1] == rest[|rest| - |l| - 1];
    }
  }
}
