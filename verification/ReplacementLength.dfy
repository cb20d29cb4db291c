/**
 How long the text gets when every occurrence is replaced by a longer word: by a scan from the left, whose
 length the growing branch of `String::replace` reserves, and by the scan from the right that it then runs.
 */
module ReplacementLength {
  import opened Replacement

  /** No proper, non-empty suffix of the pattern starts the replacement. */
  ghost predicate Safe(find: string, word: string)
    requires |find| < |word|
  {
    forall k :: 0 < k < |find| ==> !Meets(find, word, k)
  }

  predicate Meets(find: string, word: string, k: nat)
    requires k <= |find| < |word|
  {
    find[|find| - k..] == word[..k]
  }

  /** An unambiguous pattern is safe; a border alone does not make a pattern unsafe. */
  lemma UnambiguousIsSafe(find: string, word: string)
    requires |find| < |word| && Unambiguous(find, word)
    ensures Safe(find, word)
  {
  }

  // ----- Safe patterns: never longer ---------------------------------------------------------------------

  /** The characters that a scan from the right leaves before the last replacement it makes. */
  function Untouched(u: string, find: string, word: string): (p: nat)
    ensures p <= |u|
  {
    if u == [] || StartsWith([u[0]] + FromRight(u[1..], find, word), find) then 0
    else 1 + Untouched(u[1..], find, word)
  }

  lemma FromRightStep(s: string, find: string, word: string)
    requires s != []
    ensures var t := [s[0]] + FromRight(s[1..], find, word);
      FromRight(s, find, word) == if StartsWith(t, find) then word + t[|find|..] else t
  {
  }

  lemma {:induction false} UntouchedKept(u: string, q: nat, find: string, word: string)
    requires q <= Untouched(u, find, word)
    ensures FromRight(u, find, word) == u[..q] + FromRight(u[q..], find, word)
  {
    hide FromRight, StartsWith;
    if q == 0 {
      assert u[0..] == u;
    } else {
      FromRightStep(u, find, word);
      UntouchedKept(u[1..], q - 1, find, word);
      assert u[..q] == [u[0]] + u[1..][..q - 1] && u[q..] == u[1..][q - 1..];
    }
  }

  lemma {:induction false} WordAfterUntouched(u: string, find: string, word: string) returns (rest: string)
    ensures var p := Untouched(u, find, word);
      FromRight(u[p..], find, word) == if p == |u| then [] else word + rest
  {
    hide FromRight, StartsWith;
    if u == [] {
      Nothing(find, word);
      rest := [];
    } else {
      var t := [u[0]] + FromRight(u[1..], find, word);
      if StartsWith(t, find) {
        FromRightStep(u, find, word);
        FitsText(t, find);
        assert u[0..] == u;
        rest := t[|find|..];
      } else {
        rest := WordAfterUntouched(u[1..], find, word);
        var p := Untouched(u, find, word);
        assert u[p..] == u[1..][p - 1..];
      }
    }
  }

  lemma Nothing(find: string, word: string)
    ensures FromRight([], find, word) == []
  {
  }

  lemma FitsText(t: string, find: string)
    requires StartsWith(t, find)
    ensures |find| <= |t|
  {
  }

  /** Dropping at most `|find|` characters loses at most one replacement of a scan from the left. */
  lemma {:induction false} DropLosesOne(u: string, j: nat, find: string, word: string)
    requires 0 < |find| < |word| && j <= |find| && j <= |u|
    ensures |Leftmost(u, find, word)| <= j + |word| - |find| + |Leftmost(u[j..], find, word)|
    decreases |u|
  {
    if j == 0 {
      assert u[0..] == u;
    } else if |u| < |find| {
    } else if StartsWith(u, find) {
      DropKeeps(u[j..], |find| - j, find, word);
      assert u[j..][|find| - j..] == u[|find|..];
    } else {
      DropLosesOne(u[1..], j - 1, find, word);
      assert u[1..][j - 1..] == u[j..];
    }
  }

  /** The text is no longer than what is dropped and the rest replaced. */
  lemma {:induction false} DropKeeps(u: string, j: nat, find: string, word: string)
    requires 0 < |find| < |word| && j <= |find| && j <= |u|
    ensures |Leftmost(u, find, word)| >= j + |Leftmost(u[j..], find, word)|
    decreases |u|
  {
    if j == 0 {
      assert u[0..] == u;
    } else if |u| < |find| {
    } else if StartsWith(u, find) {
      DropLosesOne(u[j..], |find| - j, find, word);
      assert u[j..][|find| - j..] == u[|find|..];
    } else {
      DropKeeps(u[1..], j - 1, find, word);
      assert u[1..][j - 1..] == u[j..];
    }
  }

  /** For a safe pattern a scan from the right makes the text no longer than one from the left. */
  lemma {:induction false} SafeNeverLonger(s: string, find: string, word: string)
    requires 0 < |find| < |word| && Safe(find, word)
    ensures |FromRight(s, find, word)| <= |Leftmost(s, find, word)|
    decreases |s|
  {
    if s == [] {
    } else {
      var u, n := s[1..], |find|;
      var t := [s[0]] + FromRight(u, find, word);
      SafeNeverLonger(u, find, word);
      if StartsWith(t, find) {
        SafeSettlesOld(s, find, word);
        SafeNeverLonger(s[n..], find, word);
      } else if StartsWith(s, find) {
        DropLosesOne(u, n - 1, find, word);
        assert u[n - 1..] == s[n..];
      }
    }
  }

  /** For a safe pattern what a scan from the right finds does not reach into text put by a replacement. */
  lemma SafeFindsOld(s: string, find: string, word: string)
    requires 0 < |find| < |word| && Safe(find, word) && s != []
    requires StartsWith([s[0]] + FromRight(s[1..], find, word), find)
    ensures |find| <= |s| && |find| - 1 <= Untouched(s[1..], find, word)
  {
    hide FromRight, Untouched, StartsWith, Safe;
    var u, n := s[1..], |find|;
    var p := Untouched(u, find, word);
    var t := [s[0]] + FromRight(u, find, word);
    UntouchedKept(u, p, find, word);
    FitsText(t, find);
    if p == |u| {
      Unchanged(s, find, word);
    } else {
      var rest := WordAfterUntouched(u, find, word);
      Grouped(s, p, word + rest);
      assert s[..p + 1] + (word + rest) == s[..p + 1] + word + rest;
      AcrossReplacement(s, p + 1, word, rest, find);
      if p + 1 < n {
        SafeAt(find, word, n - (p + 1));
      }
    }
  }

  lemma Grouped(s: string, p: nat, rest: string)
    requires p < |s|
    ensures [s[0]] + (s[1..][..p] + rest) == s[..p + 1] + rest
    ensures s[1..][p..] == s[p + 1..] && s[..p + 1] + s[p + 1..] == s
  {
  }

  lemma SafeAt(find: string, word: string, k: nat)
    requires 0 < k < |find| < |word| && Safe(find, word)
    ensures find[|find| - k..] != word[..k]
  {
    assert !Meets(find, word, k);
  }

  lemma Unchanged(s: string, find: string, word: string)
    requires s != [] && Untouched(s[1..], find, word) == |s[1..]|
    ensures [s[0]] + FromRight(s[1..], find, word) == s
  {
    var u := s[1..];
    UntouchedKept(u, |u|, find, word);
    assert u[..|u|] == u && u[|u|..] == [];
    assert [s[0]] + u == s;
  }

  lemma SafeSettlesOld(s: string, find: string, word: string)
    requires 0 < |find| < |word| && Safe(find, word) && s != []
    requires StartsWith([s[0]] + FromRight(s[1..], find, word), find)
    ensures |find| <= |s| && StartsWith(s, find)
    ensures FromRight(s, find, word) == word + FromRight(s[|find|..], find, word)
  {
    hide FromRight, Untouched, StartsWith, Safe;
    var u, n := s[1..], |find|;
    SafeFindsOld(s, find, word);
    var f := FromRight(s[n..], find, word);
    UntouchedKept(u, n - 1, find, word);
    Grouped(s, n - 1, f);
    PatternThen(s[..n], f, find);
    PatternThen(s[..n], s[n..], find);
    FromRightStep(s, find, word);
  }

  lemma PatternThen(a: string, rest: string, find: string)
    requires |a| == |find|
    ensures StartsWith(a + rest, find) <==> a == find
    ensures (a + rest)[|find|..] == rest
  {
    assert (a + rest)[..|find|] == a;
  }

  // ----- Unsafe patterns: longer by any amount ---------------------------------------------------------------

  function Repeat(x: string, j: nat): string
  {
    if j == 0 then [] else x + Repeat(x, j - 1)
  }

  /** The longest suffix that starts the replacement. */
  lemma {:induction false} LongestMeeting(find: string, word: string, k: nat) returns (m: nat)
    requires 0 < k < |find| < |word| && Meets(find, word, k)
    ensures k <= m < |find| && Meets(find, word, m)
    ensures forall i :: m < i < |find| ==> !Meets(find, word, i)
    decreases |find| - k
  {
    if i :| k < i < |find| && Meets(find, word, i) {
      m := LongestMeeting(find, word, i);
    } else {
      m := k;
    }
  }

  /** Before text put by a replacement, a scan makes the pattern whole only when it has reached the start of
      the pattern's part. */
  lemma {:induction false} PartReplaced(find: string, word: string, k: nat, rest: string, i: nat)
    requires 0 < k < |find| < |word| && Meets(find, word, k)
    requires forall i :: k < i < |find| ==> !Meets(find, word, i)
    requires 0 < i <= |find| - k
    ensures var x := find[..|find| - k];
      Sweep(x[..i], x[i..] + (word + rest), find, word) == word + (word + rest)[k..]
    decreases i
  {
    hide StartsWith;
    var x := find[..|find| - k];
    var t := [x[i - 1]] + (x[i..] + (word + rest));
    assert x[..i][..i - 1] == x[..i - 1] && t == x[i - 1..] + (word + rest);
    if i == 1 {
      assert x[0..] == x && x[..0] == [];
      WholeMeets(find, word, k, rest);
    } else {
      PartDoesNotMeet(find, word, k, rest, i - 1);
      PartReplaced(find, word, k, rest, i - 1);
    }
  }

  lemma WholeMeets(find: string, word: string, k: nat, rest: string)
    requires 0 < k < |find| < |word| && Meets(find, word, k)
    ensures Settle(find[..|find| - k] + (word + rest), find, word) == word + (word + rest)[k..]
  {
    var x := find[..|find| - k];
    assert (x + (word + rest))[..|find|] == x + word[..k] == find;
    assert (x + (word + rest))[|find|..] == (word + rest)[k..];
  }

  lemma PartDoesNotMeet(find: string, word: string, k: nat, rest: string, i: nat)
    requires 0 < k < |find| < |word| && 0 < i < |find| - k && !Meets(find, word, k + i)
    ensures !StartsWith(find[..|find| - k][i..] + (word + rest), find)
  {
    var y := find[..|find| - k][i..];
    var t := y + (word + rest);
    assert t[..|find|] == y + word[..k + i];
    assert (y + word[..k + i])[|y|..] == word[..k + i];
  }

  /** A pattern that follows `j` copies of its part before the suffix: each copy gives one more replacement. */
  lemma {:induction false} CopiesReplaced(find: string, word: string, k: nat, j: nat) returns (rest: string)
    requires 0 < k < |find| < |word| && Meets(find, word, k)
    requires forall i :: k < i < |find| ==> !Meets(find, word, i)
    ensures FromRight(Repeat(find[..|find| - k], j) + find, find, word) == word + rest
    ensures |word + rest| == |word| + j * (|word| - k)
  {
    hide FromRight, Sweep;
    var x := find[..|find| - k];
    if j == 0 {
      assert Repeat(x, 0) + find == find;
      PatternItself(find, word);
      rest := [];
      assert word + rest == word;
    } else {
      var s := Repeat(x, j - 1) + find;
      var before := CopiesReplaced(find, word, k, j - 1);
      assert Repeat(x, j) + find == x + s;
      SweepIsFromRight(x, s, find, word);
      PartReplaced(find, word, k, before, |x|);
      assert x[..|x|] == x && x[|x|..] + (word + before) == word + before;
      rest := (word + before)[k..];
      OneMore(j, |word| - k);
    }
  }

  lemma OneMore(j: nat, d: nat)
    requires j > 0
    ensures j * d == (j - 1) * d + d
  {
  }

  lemma {:induction false} RepeatLength(x: string, j: nat)
    ensures |Repeat(x, j)| == j * |x|
  {
    if j == 0 {
    } else {
      RepeatLength(x, j - 1);
      OneMore(j, |x|);
    }
  }

  /** A scan from the left lengthens the text by no more than the ratio of the two lengths. */
  lemma {:induction false} LeftmostRatio(s: string, find: string, word: string)
    requires 0 < |find| < |word|
    ensures |find| * |Leftmost(s, find, word)| <= |word| * |s|
    decreases |s|
  {
    hide StartsWith;
    var n, m := |find|, |word|;
    if |s| < n {
      Scale(n, m, |s|);
    } else if StartsWith(s, find) {
      LeftmostRatio(s[n..], find, word);
      RatioStep(n, m, m, n, |Leftmost(s[n..], find, word)|, |s[n..]|);
    } else {
      LeftmostRatio(s[1..], find, word);
      RatioStep(n, m, 1, 1, |Leftmost(s[1..], find, word)|, |s[1..]|);
    }
  }

  lemma Scale(a: nat, b: nat, c: nat)
    requires a <= b
    ensures a * c <= b * c
  {
  }

  lemma RatioStep(n: nat, m: nat, a: nat, b: nat, l: nat, r: nat)
    requires n * a <= m * b && n * l <= m * r
    ensures n * (a + l) <= m * (b + r)
  {
    Distribute(n, a, l);
    Distribute(m, b, r);
  }

  lemma Distribute(a: int, b: int, c: int)
    ensures a * (b + c) == a * b + a * c
  {
  }

  /** For an unsafe pattern a scan from the right makes some text longer than one from the left by as much as
      is asked for; the text has no character that the pattern does not have. */
  lemma UnsafeLonger(find: string, word: string, k: nat, d: nat) returns (s: string)
    requires 0 < k < |find| < |word| && Meets(find, word, k)
    ensures |FromRight(s, find, word)| >= |Leftmost(s, find, word)| + d
    ensures forall i :: 0 <= i < |s| ==> s[i] in find
  {
    hide FromRight, Leftmost, Repeat;
    var m := LongestMeeting(find, word, k);
    var x, j := find[..|find| - m], d * |find|;
    s := Repeat(x, j) + find;
    var rest := CopiesReplaced(find, word, m, j);
    RepeatLength(x, j);
    LeftmostRatio(s, find, word);
    RepeatedFrom(x, j, find);
    Excess(|find|, |word|, m, d, |FromRight(s, find, word)|, |Leftmost(s, find, word)|, |s|);
  }

  lemma {:induction false} RepeatedFrom(x: string, j: nat, find: string)
    requires forall i :: 0 <= i < |x| ==> x[i] in find
    ensures forall i :: 0 <= i < |Repeat(x, j)| ==> Repeat(x, j)[i] in find
  {
    if j == 0 {
    } else {
      RepeatedFrom(x, j - 1, find);
    }
  }

  lemma Excess(n: nat, m: nat, k: nat, d: nat, right: nat, left: nat, len: nat)
    requires 0 < k < n < m
    requires right == m + d * n * (m - k) && len == d * n * (n - k) + n
    requires n * left <= m * len
    ensures right >= left + d
  {
    var j, a, b := d * n, m - k, n - k;
    Distribute(n, m, j * a);
    Distribute(m, j * b, n);
    Reorder(n, j, a);
    Reorder(m, j, b);
    Cross(n, m, k);
    Distribute(j, n * a - m * b, m * b);
    assert n * right - m * len == j * (k * (m - n));
    Positive(k, m - n);
    Scale(1, k * (m - n), j);
    assert n * right >= n * left + n * d;
    Distribute(n, left, d);
    if right < left + d {
      Distribute(n, right, 1);
      Scale(right + 1, left + d, n);
    }
  }

  lemma Reorder(a: int, b: int, c: int)
    ensures a * (b * c) == b * (a * c)
  {
  }

  lemma Cross(n: int, m: int, k: int)
    ensures n * (m - k) - m * (n - k) == k * (m - n)
  {
  }

  lemma Positive(a: nat, b: nat)
    requires a > 0 && b > 0
    ensures a * b >= 1
  {
  }

  // ----- Exactly the safe patterns ---------------------------------------------------------------------------

  /** The scan from the right never makes a text longer than the one from the left exactly for safe patterns. */
  lemma NeverLongerIffSafe(find: string, word: string)
    requires 0 < |find| < |word|
    ensures (forall s: string :: |FromRight(s, find, word)| <= |Leftmost(s, find, word)|) <==> Safe(find, word)
  {
    if Safe(find, word) {
      forall s: string ensures |FromRight(s, find, word)| <= |Leftmost(s, find, word)| {
        SafeNeverLonger(s, find, word);
      }
    } else {
      var k :| 0 < k < |find| && Meets(find, word, k);
      var s := UnsafeLonger(find, word, k, 1);
    }
  }
}
