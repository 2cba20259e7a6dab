/** The Python string operations the pipeline relies on: `str.lower`, `str.title`,
    the substring test `in`, `str.replace` and `str.join`.

    Case mapping is restricted to an alphabet with a one-to-one case mapping: the
    ASCII letters are the only cased characters, and every other character is
    uncased and left unchanged by every case mapping. */
module Text {

  predicate IsUpper(c: char) { 'A' <= c <= 'Z' }

  predicate IsLower(c: char) { 'a' <= c <= 'z' }

  predicate IsCased(c: char) { IsUpper(c) || IsLower(c) }

  function ToLower(c: char): (d: char)
    ensures IsCased(d) == IsCased(c) && !IsUpper(d)
    ensures !IsUpper(c) ==> d == c
  {
    if IsUpper(c) then (c as int + 32) as char else c
  }

  function ToUpper(c: char): (d: char)
    ensures IsCased(d) == IsCased(c) && !IsLower(d)
    ensures !IsLower(c) ==> d == c
    ensures ToLower(d) == ToLower(c)
  {
    if IsLower(c) then (c as int - 32) as char else c
  }

  /** Two characters that lower to the same character also upper to the same one. */
  lemma SameLowerSameUpper(a: char, b: char)
    requires ToLower(a) == ToLower(b)
    ensures ToUpper(a) == ToUpper(b) && IsCased(a) == IsCased(b)
  {
  }

  /** `str.lower` */
  function Lower(s: string): (r: string)
    ensures |r| == |s|
  {
    seq(|s|, i requires 0 <= i < |s| => ToLower(s[i]))
  }

  lemma LowerConcat(a: string, b: string)
    ensures Lower(a + b) == Lower(a) + Lower(b)
  {
    assert forall i | 0 <= i < |a + b| :: Lower(a + b)[i] == (Lower(a) + Lower(b))[i];
  }

  /** `str.title`, as CPython computes it: a character that follows a cased
      character is lowered, every other character is upper-cased (title-cased).
      CPython carries the "previous is cased" flag through one scan; here it is
      read off the previous character. */
  function Title(s: string): (r: string)
    ensures |r| == |s|
  {
    seq(|s|, i requires 0 <= i < |s| =>
      if i > 0 && IsCased(s[i - 1]) then ToLower(s[i]) else ToUpper(s[i]))
  }

  /** Title-casing changes the case of letters and nothing else. */
  lemma LowerTitle(s: string)
    ensures Lower(Title(s)) == Lower(s)
  {
    forall i | 0 <= i < |s| ensures Lower(Title(s))[i] == Lower(s)[i] {
      assert Title(s)[i] == if i > 0 && IsCased(s[i - 1]) then ToLower(s[i]) else ToUpper(s[i]);
    }
  }

  /** The title-cased form of a string depends only on its lower-cased form. */
  lemma TitleIgnoresCase(a: string, b: string)
    requires Lower(a) == Lower(b)
    ensures Title(a) == Title(b)
  {
    assert |a| == |b|;
    forall i | 0 <= i < |a| ensures Title(a)[i] == Title(b)[i] {
      assert Lower(a)[i] == Lower(b)[i];
      SameLowerSameUpper(a[i], b[i]);
      if i > 0 {
        assert Lower(a)[i - 1] == Lower(b)[i - 1];
        SameLowerSameUpper(a[i - 1], b[i - 1]);
      }
    }
  }

  /** Title-casing is idempotent. */
  lemma TitleIdempotent(s: string)
    ensures Title(Title(s)) == Title(s)
  {
    LowerTitle(s);
    TitleIgnoresCase(Title(s), s);
  }

  /** No two adjacent upper-case letters. */
  predicate NoUpperPair(s: string)
  {
    forall i | 0 < i < |s| :: !(IsUpper(s[i - 1]) && IsUpper(s[i]))
  }

  /** A title-cased string never holds two upper-case letters in a row. */
  lemma TitleNoUpperPair(s: string)
    ensures NoUpperPair(Title(s))
  {
    forall i | 0 < i < |s| ensures !(IsUpper(Title(s)[i - 1]) && IsUpper(Title(s)[i])) {
    }
  }

  // ---------------------------------------------------------------------------
  // Substrings

  predicate OccursAt(s: string, pat: string, k: int)
  {
    0 <= k && k + |pat| <= |s| && s[k..k + |pat|] == pat
  }

  /** The substring test `pat in s`. */
  predicate Contains(s: string, pat: string)
  {
    exists k | 0 <= k <= |s| - |pat| :: OccursAt(s, pat, k)
  }

  /** A string that lacks one of the pattern's characters cannot contain it. */
  lemma MissingCharNotContained(s: string, pat: string, j: nat)
    requires j < |pat| && pat[j] !in s
    ensures !Contains(s, pat)
  {
    forall k | 0 <= k <= |s| - |pat| ensures !OccursAt(s, pat, k) {
      assert s[k..k + |pat|][j] == s[k + j];
    }
  }

  /** A string with no two adjacent upper-case letters cannot contain a pattern that has some. */
  lemma NoUpperPairNotContained(s: string, pat: string, j: nat)
    requires 0 < j < |pat| && IsUpper(pat[j - 1]) && IsUpper(pat[j])
    requires NoUpperPair(s)
    ensures !Contains(s, pat)
  {
    forall k | 0 <= k <= |s| - |pat| ensures !OccursAt(s, pat, k) {
      assert s[k..k + |pat|][j] == s[k + j];
      assert s[k..k + |pat|][j - 1] == s[k + j - 1];
    }
  }

  /** An occurrence in `a + b` lies in `a`, lies in `b`, or holds both the last
      character of `a` and the first of `b`. */
  lemma ConcatNotContained(a: string, b: string, pat: string)
    requires !Contains(a, pat) && !Contains(b, pat)
    requires a == [] || b == [] || a[|a| - 1] !in pat || b[0] !in pat
    ensures !Contains(a + b, pat)
  {
    var s := a + b;
    forall k | 0 <= k <= |s| - |pat| ensures !OccursAt(s, pat, k) {
      if k + |pat| <= |a| {
        assert s[k..k + |pat|] == a[k..k + |pat|];
        assert !OccursAt(a, pat, k);
      } else if k >= |a| {
        assert s[k..k + |pat|] == b[k - |a|..k - |a| + |pat|];
        assert !OccursAt(b, pat, k - |a|);
      } else {
        assert s[k..k + |pat|][|a| - 1 - k] == a[|a| - 1];
        assert s[k..k + |pat|][|a| - k] == b[0];
      }
    }
  }

  // ---------------------------------------------------------------------------
  // str.replace, str.split and str.join

  /** `s.replace(pat, rep)` for a non-empty `pat`: scan from the left, replace each
      occurrence and continue after it, so that every occurrence the scan meets is
      replaced and replacements never overlap. */
  function ReplaceAll(s: string, pat: string, rep: string): (r: string)
    requires pat != []
    decreases |s|
  {
    if |s| < |pat| then s
    else if s[..|pat|] == pat then rep + ReplaceAll(s[|pat|..], pat, rep)
    else [s[0]] + ReplaceAll(s[1..], pat, rep)
  }

  /** One step of `ReplaceAll` at an occurrence. */
  lemma ReplaceAllAtMatch(s: string, pat: string, rep: string)
    requires pat != [] && |s| >= |pat| && s[..|pat|] == pat
    ensures ReplaceAll(s, pat, rep) == rep + ReplaceAll(s[|pat|..], pat, rep)
  {
  }

  /** One step of `ReplaceAll` past a character that does not start an occurrence. */
  lemma ReplaceAllPastChar(s: string, pat: string, rep: string)
    requires pat != [] && |s| >= |pat| && s[..|pat|] != pat
    ensures ReplaceAll(s, pat, rep) == [s[0]] + ReplaceAll(s[1..], pat, rep)
  {
  }

  /** The pieces of `s` between the occurrences `ReplaceAll` replaces, as `s.split(pat)`. */
  function Split(s: string, pat: string): (r: seq<string>)
    requires pat != []
    ensures |r| >= 1
    decreases |s|
  {
    if |s| < |pat| then [s]
    else if s[..|pat|] == pat then [""] + Split(s[|pat|..], pat)
    else
      var t := Split(s[1..], pat);
      [[s[0]] + t[0]] + t[1..]
  }

  /** `sep.join(parts)` */
  function Join(parts: seq<string>, sep: string): (r: string)
  {
    if parts == [] then ""
    else if |parts| == 1 then parts[0]
    else parts[0] + sep + Join(parts[1..], sep)
  }

  lemma {:induction false} JoinConcat(a: seq<string>, b: seq<string>, sep: string)
    requires a != [] && b != []
    ensures Join(a + b, sep) == Join(a, sep) + sep + Join(b, sep)
  {
    if |a| == 1 {
      assert (a + b)[1..] == b;
    } else {
      assert (a + b)[1..] == a[1..] + b;
      JoinConcat(a[1..], b, sep);
    }
  }

  /** Part `i` of a join stands between the join of the parts before it and the
      join of the parts after it. */
  lemma JoinAround(parts: seq<string>, sep: string, i: nat)
    requires i < |parts|
    ensures Join(parts, sep) ==
      (if i > 0 then Join(parts[..i], sep) + sep else "")
      + parts[i]
      + (if i + 1 < |parts| then sep + Join(parts[i + 1..], sep) else "")
  {
    var tail := [parts[i]] + parts[i + 1..];
    assert parts == parts[..i] + tail;
    if i + 1 < |parts| {
      JoinConcat([parts[i]], parts[i + 1..], sep);
    } else {
      assert tail == [parts[i]];
    }
    if i > 0 {
      JoinConcat(parts[..i], tail, sep);
    }
  }

  /** One step of `Split` at an occurrence. */
  lemma SplitAtMatch(s: string, pat: string)
    requires pat != [] && |s| >= |pat| && s[..|pat|] == pat
    ensures Split(s, pat) == [""] + Split(s[|pat|..], pat)
  {
  }

  /** One step of `Split` past a character that does not start an occurrence. */
  lemma SplitPastChar(s: string, pat: string)
    requires pat != [] && |s| >= |pat| && s[..|pat|] != pat
    ensures var t := Split(s[1..], pat); Split(s, pat) == [[s[0]] + t[0]] + t[1..]
  {
  }

  lemma JoinCons(x: string, t: seq<string>, sep: string)
    requires t != []
    ensures Join([x] + t, sep) == x + sep + Join(t, sep)
  {
    assert ([x] + t)[1..] == t;
  }

  /** Putting a character in front of the first part puts it in front of the join. */
  lemma JoinPrependChar(c: char, t: seq<string>, sep: string)
    requires t != []
    ensures Join([[c] + t[0]] + t[1..], sep) == [c] + Join(t, sep)
  {
    if |t| > 1 {
      JoinCons([c] + t[0], t[1..], sep);
      JoinCons(t[0], t[1..], sep);
      assert t == [t[0]] + t[1..];
    } else {
      assert [[c] + t[0]] + t[1..] == [[c] + t[0]];
    }
  }

  /** Joining the pieces back with the pattern gives the original string. */
  lemma {:induction false} SplitJoin(s: string, pat: string)
    requires pat != []
    ensures Join(Split(s, pat), pat) == s
    decreases |s|
  {
    if |s| < |pat| {
    } else if s[..|pat|] == pat {
      SplitAtMatch(s, pat);
      SplitJoin(s[|pat|..], pat);
      JoinCons("", Split(s[|pat|..], pat), pat);
      assert s == "" + pat + s[|pat|..];
    } else {
      SplitPastChar(s, pat);
      SplitJoin(s[1..], pat);
      JoinPrependChar(s[0], Split(s[1..], pat), pat);
      assert s == [s[0]] + s[1..];
    }
  }

  /** Replacing every occurrence is joining the pieces with the replacement. */
  lemma {:induction false} ReplaceAllIsJoin(s: string, pat: string, rep: string)
    requires pat != []
    ensures ReplaceAll(s, pat, rep) == Join(Split(s, pat), rep)
    decreases |s|
  {
    if |s| < |pat| {
    } else if s[..|pat|] == pat {
      SplitAtMatch(s, pat);
      ReplaceAllIsJoin(s[|pat|..], pat, rep);
      JoinCons("", Split(s[|pat|..], pat), rep);
      assert "" + rep == rep;
    } else {
      SplitPastChar(s, pat);
      ReplaceAllIsJoin(s[1..], pat, rep);
      JoinPrependChar(s[0], Split(s[1..], pat), rep);
    }
  }

  /** The first piece is a prefix of the string. */
  lemma {:induction false} SplitHeadPrefix(s: string, pat: string)
    requires pat != []
    ensures Split(s, pat)[0] <= s
    decreases |s|
  {
    if |s| >= |pat| && s[..|pat|] != pat {
      SplitHeadPrefix(s[1..], pat);
    }
  }

  /** The first piece ends where the leftmost occurrence begins: `Split` cuts at
      the first occurrence, as the left-to-right scan of `str.replace` does, even
      when occurrences overlap. */
  lemma {:induction false} SplitHeadFirst(s: string, pat: string)
    requires pat != [] && |Split(s, pat)| > 1
    ensures OccursAt(s, pat, |Split(s, pat)[0]|)
    ensures forall k | 0 <= k < |Split(s, pat)[0]| :: !OccursAt(s, pat, k)
    decreases |s|
  {
    if |s| >= |pat| && s[..|pat|] == pat {
      SplitAtMatch(s, pat);
    } else {
      SplitPastChar(s, pat);
      var t := Split(s[1..], pat);
      SplitHeadFirst(s[1..], pat);
      var h := |t[0]|;
      assert s[h + 1..h + 1 + |pat|] == s[1..][h..h + |pat|];
      forall k | 0 <= k < h + 1
        ensures !OccursAt(s, pat, k)
      {
        if k == 0 {
          assert s[..|pat|] == s[0..|pat|];
        } else {
          assert !OccursAt(s[1..], pat, k - 1);
          if k + |pat| <= |s| {
            assert s[k..k + |pat|] == s[1..][k - 1..k - 1 + |pat|];
          }
        }
      }
    }
  }

  /** No piece contains the pattern. */
  lemma {:induction false} SplitPiecesFree(s: string, pat: string)
    requires pat != []
    ensures forall i | 0 <= i < |Split(s, pat)| :: !Contains(Split(s, pat)[i], pat)
    decreases |s|
  {
    var r := Split(s, pat);
    if |s| < |pat| {
      assert !Contains(s, pat);
    } else if s[..|pat|] == pat {
      var t := Split(s[|pat|..], pat);
      assert r == [""] + t;
      SplitPiecesFree(s[|pat|..], pat);
      assert !Contains("", pat);
    } else {
      var t := Split(s[1..], pat);
      assert r == [[s[0]] + t[0]] + t[1..];
      SplitPiecesFree(s[1..], pat);
      SplitHeadPrefix(s[1..], pat);
      var h := [s[0]] + t[0];
      forall k | 0 <= k <= |h| - |pat| ensures !OccursAt(h, pat, k) {
        if k == 0 {
          assert h[..|pat|] == s[..|pat|];
        } else {
          assert h[k..k + |pat|] == t[0][k - 1..k - 1 + |pat|];
          assert !OccursAt(t[0], pat, k - 1);
        }
      }
    }
  }

  /** `pat in s` exactly when the split yields more than one piece. */
  lemma ContainsIffSplit(s: string, pat: string)
    requires pat != []
    ensures Contains(s, pat) <==> |Split(s, pat)| > 1
  {
    var r := Split(s, pat);
    SplitJoin(s, pat);
    SplitPiecesFree(s, pat);
    if |r| > 1 {
      assert s == r[0] + pat + Join(r[1..], pat);
      assert s[|r[0]|..|r[0]| + |pat|] == pat;
      assert OccursAt(s, pat, |r[0]|);
    } else {
      assert s == r[0];
    }
  }

  /** Joining pieces that do not contain the pattern, with a separator that does not
      contain it and neither begins nor ends with one of its characters, gives a
      string that does not contain the pattern. */
  lemma {:induction false} JoinNotContained(parts: seq<string>, sep: string, pat: string)
    requires pat != []
    requires forall i | 0 <= i < |parts| :: !Contains(parts[i], pat)
    requires sep != [] && !Contains(sep, pat)
    requires sep[0] !in pat && sep[|sep| - 1] !in pat
    ensures !Contains(Join(parts, sep), pat)
  {
    if parts == [] {
      assert !Contains("", pat);
    } else if |parts| > 1 {
      JoinNotContained(parts[1..], sep, pat);
      ConcatNotContained(parts[0], sep, pat);
      assert (parts[0] + sep)[|parts[0] + sep| - 1] == sep[|sep| - 1];
      ConcatNotContained(parts[0] + sep, Join(parts[1..], sep), pat);
    }
  }
}
