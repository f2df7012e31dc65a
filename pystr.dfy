/**
 * The handful of Python string operations the scripts rely on, with their exact
 * Python semantics: slicing with negative or out-of-range bounds, `str.split`
 * and `str.join` on a one-character separator, `str.find`, and `str.replace`
 * with and without a count of one.
 */
module PyStr {

  /** `max(a, b)` (and `Math.max` on integers). */
  function Max(a: int, b: int): (m: int)
    ensures a <= m && b <= m && (m == a || m == b)
  {
    if a < b then b else a
  }

  /** `min(a, b)` (and `Math.min` on integers). */
  function Min(a: int, b: int): (m: int)
    ensures m <= a && m <= b && (m == a || m == b)
  {
    if a < b then a else b
  }

  /** Python's normalisation of one slice bound against a length `n`:
      a negative bound counts from the end, then the bound is clipped to 0..n. */
  function ClipIndex(i: int, n: nat): (k: nat)
    ensures k <= n
    ensures 0 <= i <= n ==> k == i
    ensures i < 0 && -i <= n ==> k == n + i
  {
    if i < 0 then (if i + n < 0 then 0 else i + n)
    else if i > n then n
    else i
  }

  /** `s[i:j]` in Python. */
  function Slice<T>(s: seq<T>, i: int, j: int): (r: seq<T>)
    ensures |r| <= |s|
    ensures 0 <= i <= j <= |s| ==> r == s[i..j]
    ensures 0 <= i && 0 <= j ==> |r| <= if j < i then 0 else j - i
  {
    var a, b := ClipIndex(i, |s|), ClipIndex(j, |s|);
    if a < b then s[a..b] else []
  }

  // ---------------------------------------------------------------------------
  // split / join on a one-character separator

  /** `s.split(sep)`: the maximal separator-free pieces, empty pieces included. */
  function Split(s: string, sep: char): (parts: seq<string>)
    ensures |parts| >= 1
    ensures forall k :: 0 <= k < |parts| ==> sep !in parts[k]
  {
    if s == [] then [[]]
    else
      var rest := Split(s[1..], sep);
      if s[0] == sep then [[]] + rest
      else [[s[0]] + rest[0]] + rest[1..]
  }

  /** `sep.join(parts)`. */
  function Join(parts: seq<string>, sep: char): (joined: string)
  {
    if |parts| == 0 then []
    else if |parts| == 1 then parts[0]
    else parts[0] + [sep] + Join(parts[1..], sep)
  }

  /** Joining the pieces of a split gives the original string back. */
  lemma {:induction false} JoinSplit(s: string, sep: char)
    ensures Join(Split(s, sep), sep) == s
  {
    if s != [] {
      var rest := Split(s[1..], sep);
      JoinSplit(s[1..], sep);
      if s[0] == sep {
        assert Split(s, sep) == [[]] + rest;
        assert ([[]] + rest)[1..] == rest;
      } else {
        var parts := Split(s, sep);
        assert parts == [[s[0]] + rest[0]] + rest[1..];
        if |rest| == 1 {
          assert Join(rest, sep) == rest[0];
        } else {
          assert parts[1..] == rest[1..];
          assert Join(rest, sep) == rest[0] + [sep] + Join(rest[1..], sep);
          assert Join(parts, sep) == [s[0]] + rest[0] + [sep] + Join(rest[1..], sep);
        }
        assert s == [s[0]] + s[1..];
      }
    }
  }

  /** A string without the separator splits into itself. */
  lemma {:induction false} SplitNoSeparator(a: string, sep: char)
    requires sep !in a
    ensures Split(a, sep) == [a]
  {
    if a != [] {
      SplitNoSeparator(a[1..], sep);
      assert [a[0]] + a[1..] == a;
    }
  }

  /** Splitting at one separator occurrence splits the two sides independently. */
  lemma {:induction false} SplitConcat(a: string, b: string, sep: char)
    ensures Split(a + [sep] + b, sep) == Split(a, sep) + Split(b, sep)
  {
    if a == [] {
      assert (a + [sep] + b)[1..] == b;
    } else {
      SplitConcat(a[1..], b, sep);
      SplitConcatStep(a, b, sep);
    }
  }

  /** The inductive step of `SplitConcat`: the first character of `a` is added
      to the first piece, or is a separator that opens an empty piece. */
  lemma SplitConcatStep(a: string, b: string, sep: char)
    requires a != []
    requires Split(a[1..] + [sep] + b, sep) == Split(a[1..], sep) + Split(b, sep)
    ensures Split(a + [sep] + b, sep) == Split(a, sep) + Split(b, sep)
  {
    var s := a + [sep] + b;
    TailAroundSeparator(a, sep, b);
    var ra, rb := Split(a[1..], sep), Split(b, sep);
    if a[0] == sep {
      SplitOpensPiece(s, ra + rb, sep);
      SplitOpensPiece(a, ra, sep);
      ConsToConcat([], ra, rb);
    } else {
      SplitExtendsPiece(s, ra + rb, sep);
      SplitExtendsPiece(a, ra, sep);
      AppendToHead([a[0]], ra, rb);
    }
  }

  lemma TailAroundSeparator<T>(a: seq<T>, x: T, b: seq<T>)
    requires a != []
    ensures (a + [x] + b)[0] == a[0] && (a + [x] + b)[1..] == a[1..] + [x] + b
  {
  }

  lemma SplitOpensPiece(s: string, rest: seq<string>, sep: char)
    requires s != [] && s[0] == sep && Split(s[1..], sep) == rest
    ensures Split(s, sep) == [[]] + rest
  {
  }

  lemma SplitExtendsPiece(s: string, rest: seq<string>, sep: char)
    requires s != [] && s[0] != sep && Split(s[1..], sep) == rest
    ensures |rest| >= 1 && Split(s, sep) == [[s[0]] + rest[0]] + rest[1..]
  {
  }

  lemma ConsToConcat<T>(x: T, ra: seq<T>, rb: seq<T>)
    ensures [x] + (ra + rb) == ([x] + ra) + rb
  {
  }

  lemma AppendToHead<T>(x: seq<T>, ra: seq<seq<T>>, rb: seq<seq<T>>)
    requires |ra| >= 1
    ensures [x + (ra + rb)[0]] + (ra + rb)[1..] == ([x + ra[0]] + ra[1..]) + rb
  {
    assert (ra + rb)[1..] == ra[1..] + rb;
  }

  /** Splitting a join of separator-free pieces gives the pieces back. */
  lemma {:induction false} SplitJoin(parts: seq<string>, sep: char)
    requires |parts| >= 1
    requires forall k :: 0 <= k < |parts| ==> sep !in parts[k]
    ensures Split(Join(parts, sep), sep) == parts
  {
    SplitNoSeparator(parts[0], sep);
    if |parts| > 1 {
      SplitJoin(parts[1..], sep);
      SplitConcat(parts[0], Join(parts[1..], sep), sep);
      assert parts == [parts[0]] + parts[1..];
    }
  }

  /** Cutting a piece list in two and gluing the halves with the separator is the whole join. */
  lemma {:induction false} JoinAt(parts: seq<string>, i: nat, sep: char)
    requires 1 <= i < |parts|
    ensures Join(parts[..i], sep) + [sep] + Join(parts[i..], sep) == Join(parts, sep)
  {
    if i == 1 {
      assert parts[..1] == [parts[0]];
      assert parts[1..] == parts[1..];
    } else {
      JoinAt(parts[1..], i - 1, sep);
      assert parts[1..][..i - 1] == parts[..i][1..];
      assert parts[1..][i - 1..] == parts[i..];
      assert parts[..i][0] == parts[0];
    }
  }

  // ---------------------------------------------------------------------------
  // find / replace

  /** `pat` occurs in `s` starting at index `j`. */
  predicate OccursAt(s: string, pat: string, j: int)
  {
    0 <= j && j + |pat| <= |s| && s[j..j + |pat|] == pat
  }

  /** `s.find(pat, i)`: the first occurrence at or after `i`, or -1. */
  function FindFrom(s: string, pat: string, i: nat): (k: int)
    requires i <= |s| + 1
    decreases |s| + 1 - i
    ensures k == -1 || (i <= k && OccursAt(s, pat, k))
    ensures k == -1 ==> forall j :: i <= j ==> !OccursAt(s, pat, j)
    ensures k != -1 ==> forall j :: i <= j < k ==> !OccursAt(s, pat, j)
  {
    if i + |pat| > |s| then -1
    else if s[i..i + |pat|] == pat then i
    else FindFrom(s, pat, i + 1)
  }

  /** `s.find(pat)`. */
  function Find(s: string, pat: string): (k: int)
  {
    FindFrom(s, pat, 0)
  }

  /** `s.replace(pat, rep, 1)`. */
  function ReplaceFirst(s: string, pat: string, rep: string): (r: string)
  {
    var k := Find(s, pat);
    if k == -1 then s else s[..k] + rep + s[k + |pat|..]
  }

  /** What `replace(pat, rep, 1)` does: it rewrites the leftmost occurrence and
      nothing else, and leaves a string without occurrence unchanged. */
  lemma ReplaceFirstSpec(s: string, pat: string, rep: string)
    ensures (forall j :: !OccursAt(s, pat, j)) ==> ReplaceFirst(s, pat, rep) == s
    ensures forall k :: OccursAt(s, pat, k) && (forall j :: 0 <= j < k ==> !OccursAt(s, pat, j)) ==>
              ReplaceFirst(s, pat, rep) == s[..k] + rep + s[k + |pat|..]
  {
    var f := Find(s, pat);
    forall k | OccursAt(s, pat, k) && (forall j :: 0 <= j < k ==> !OccursAt(s, pat, j))
      ensures ReplaceFirst(s, pat, rep) == s[..k] + rep + s[k + |pat|..]
    {
      assert f != -1;
      assert !(f < k) && !(k < f);
    }
  }

  /** `replace(pat, '', 1)` followed by appending `suffix`. */
  lemma RemoveFirstThenAppend(s: string, pat: string, suffix: string)
    ensures (forall j :: !OccursAt(s, pat, j)) ==> ReplaceFirst(s, pat, "") + suffix == s + suffix
    ensures forall k :: OccursAt(s, pat, k) && (forall j :: 0 <= j < k ==> !OccursAt(s, pat, j)) ==>
              ReplaceFirst(s, pat, "") + suffix == s[..k] + s[k + |pat|..] + suffix
  {
    ReplaceFirstSpec(s, pat, "");
    forall k | OccursAt(s, pat, k) && (forall j :: 0 <= j < k ==> !OccursAt(s, pat, j))
      ensures ReplaceFirst(s, pat, "") + suffix == s[..k] + s[k + |pat|..] + suffix
    {
      DropEmpty(s[..k], s[k + |pat|..]);
    }
  }

  lemma DropEmpty<T>(a: seq<T>, b: seq<T>)
    ensures a + [] + b == a + b
  {
  }

  /** Removing a leading prefix with `replace(prefix, '', 1)` returns what followed it. */
  lemma {:induction false} ReplaceFirstPrefix(prefix: string, rest: string)
    ensures ReplaceFirst(prefix + rest, prefix, "") == rest
  {
    var s := prefix + rest;
    assert s[0..|prefix|] == prefix;
    assert OccursAt(s, prefix, 0);
    assert Find(s, prefix) == 0;
    assert s[|prefix|..] == rest;
  }

  /** `pat` is a prefix of `s`. */
  predicate StartsWith(s: string, pat: string)
  {
    |pat| <= |s| && s[..|pat|] == pat
  }

  /** `s.replace(pat, rep)` for a non-empty `pat`: a left-to-right scan that
      rewrites non-overlapping occurrences. */
  function ReplaceAll(s: string, pat: string, rep: string): (r: string)
    requires |pat| > 0
    decreases |s|
  {
    if StartsWith(s, pat) then rep + ReplaceAll(s[|pat|..], pat, rep)
    else if s == [] then []
    else [s[0]] + ReplaceAll(s[1..], pat, rep)
  }

  /** Replacing with something no longer than the pattern never lengthens the string. */
  lemma {:induction false} ReplaceAllShrinks(s: string, pat: string, rep: string)
    requires |pat| > 0 && |rep| <= |pat|
    ensures |ReplaceAll(s, pat, rep)| <= |s|
    decreases |s|
  {
    if StartsWith(s, pat) {
      ReplaceAllShrinks(s[|pat|..], pat, rep);
    } else if s != [] {
      ReplaceAllShrinks(s[1..], pat, rep);
    }
  }

  /** A leading occurrence is rewritten and the scan goes on after it. */
  lemma ReplaceAllLeading(pat: string, rest: string, rep: string)
    requires |pat| > 0
    ensures ReplaceAll(pat + rest, pat, rep) == rep + ReplaceAll(rest, pat, rep)
  {
    assert (pat + rest)[..|pat|] == pat && (pat + rest)[|pat|..] == rest;
  }

  /** An occurrence in a suffix is an occurrence in the whole string, shifted. */
  lemma OccursInSuffix(s: string, d: nat, pat: string, j: int)
    requires d <= |s|
    ensures OccursAt(s[d..], pat, j) ==> OccursAt(s, pat, j + d)
  {
    if OccursAt(s[d..], pat, j) {
      assert s[d..][j..j + |pat|] == s[j + d..j + d + |pat|];
    }
  }

  /** A string with no occurrence of the pattern is left unchanged by `replace`. */
  lemma {:induction false} ReplaceAllNoOccurrence(s: string, pat: string, rep: string)
    requires |pat| > 0
    requires forall j :: !OccursAt(s, pat, j)
    ensures ReplaceAll(s, pat, rep) == s
  {
    if s != [] {
      assert !OccursAt(s, pat, 0);
      forall j ensures !OccursAt(s[1..], pat, j) {
        OccursInSuffix(s, 1, pat, j);
      }
      ReplaceAllNoOccurrence(s[1..], pat, rep);
      assert s == [s[0]] + s[1..];
    }
  }

  /** No occurrence of `pat` starts inside `a` and runs past its end. */
  predicate NoStraddle(a: string, b: string, pat: string)
  {
    forall j :: 0 <= j < |a| < j + |pat| ==> !OccursAt(a + b, pat, j)
  }

  /** Dropping `d` leading characters of `a` keeps the boundary clean. */
  lemma NoStraddleSuffix(a: string, b: string, pat: string, d: nat)
    requires d <= |a| && NoStraddle(a, b, pat)
    ensures NoStraddle(a[d..], b, pat)
  {
    assert a[d..] + b == (a + b)[d..];
    forall j | 0 <= j < |a[d..]| < j + |pat| ensures !OccursAt(a[d..] + b, pat, j) {
      OccursInSuffix(a + b, d, pat, j);
    }
  }

  /** A scan over `a + b` treats `a` on its own when no occurrence straddles the boundary. */
  lemma {:induction false} ReplaceAllConcat(a: string, b: string, pat: string, rep: string)
    requires |pat| > 0
    requires NoStraddle(a, b, pat)
    ensures ReplaceAll(a + b, pat, rep) == ReplaceAll(a, pat, rep) + ReplaceAll(b, pat, rep)
    decreases |a|
  {
    var s := a + b;
    if a == [] {
      assert s == b;
    } else if StartsWith(s, pat) {
      MatchInFirst(a, b, pat);
      NoStraddleSuffix(a, b, pat, |pat|);
      ReplaceAllConcat(a[|pat|..], b, pat, rep);
      assert ReplaceAll(s, pat, rep) == rep + ReplaceAll(a[|pat|..] + b, pat, rep);
      assert ReplaceAll(a, pat, rep) == rep + ReplaceAll(a[|pat|..], pat, rep);
    } else {
      NoMatchInFirst(a, b, pat);
      NoStraddleSuffix(a, b, pat, 1);
      ReplaceAllConcat(a[1..], b, pat, rep);
      assert ReplaceAll(s, pat, rep) == [s[0]] + ReplaceAll(a[1..] + b, pat, rep);
      assert ReplaceAll(a, pat, rep) == [a[0]] + ReplaceAll(a[1..], pat, rep);
    }
  }

  /** An occurrence at the start of `a + b` lies inside `a`. */
  lemma MatchInFirst(a: string, b: string, pat: string)
    requires a != [] && |pat| > 0 && NoStraddle(a, b, pat) && StartsWith(a + b, pat)
    ensures StartsWith(a, pat) && (a + b)[|pat|..] == a[|pat|..] + b
  {
    assert OccursAt(a + b, pat, 0);
    assert a[..|pat|] == (a + b)[..|pat|];
  }

  lemma NoMatchInFirst(a: string, b: string, pat: string)
    requires a != [] && !StartsWith(a + b, pat)
    ensures !StartsWith(a, pat) && (a + b)[0] == a[0] && (a + b)[1..] == a[1..] + b
  {
    assert |pat| <= |a| ==> (a + b)[..|pat|] == a[..|pat|];
  }
}
