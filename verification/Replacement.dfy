/**
 What replacing every occurrence of a pattern means: scanning from the left, as the equal-length and
 shrinking branches of `String::replace` do, and scanning from the right over the text as it changes,
 as the growing branch does.
 */
module Replacement {

  predicate StartsWith(s: string, find: string)
  {
    |find| <= |s| && s[..|find|] == find
  }

  predicate MatchAt(s: string, find: string, i: nat)
  {
    i <= |s| && StartsWith(s[i..], find)
  }

  /** Replace leftmost, non-overlapping occurrences. */
  function Leftmost(s: string, find: string, word: string): string
    requires find != []
  {
    if |s| < |find| then s
    else if StartsWith(s, find) then word + Leftmost(s[|find|..], find, word)
    else [s[0]] + Leftmost(s[1..], find, word)
  }

  /** One position of a scan from the right: replace if the text from here on starts with the pattern. */
  function Settle(t: string, find: string, word: string): string
  {
    if StartsWith(t, find) then word + t[|find|..] else t
  }

  /** Scan from the right: `todo` is still to be visited, `done` is the text after it as it now is. */
  function Sweep(todo: string, done: string, find: string, word: string): string
    decreases |todo|
  {
    if todo == [] then done else
      var last := |todo| - 1;
      Sweep(todo[..last], Settle([todo[last]] + done, find, word), find, word)
  }

  function RightToLeft(s: string, find: string, word: string): string
  {
    Sweep(s, [], find, word)
  }

  /** No proper, non-empty suffix of the pattern starts the pattern or the replacement. */
  ghost predicate Unambiguous(find: string, word: string)
    requires |find| < |word|
  {
    forall k :: 0 < k < |find| ==> find[|find| - k..] != find[..k] && find[|find| - k..] != word[..k]
  }

  // ----- Scanning from the right, as a recursion on the front --------------------------------------

  function FromRight(s: string, find: string, word: string): string
  {
    if s == [] then [] else Settle([s[0]] + FromRight(s[1..], find, word), find, word)
  }

  lemma {:induction false} SweepIsFromRight(a: string, b: string, find: string, word: string)
    ensures Sweep(a, FromRight(b, find, word), find, word) == FromRight(a + b, find, word)
    decreases |a|
  {
    if a == [] {
      assert a + b == b;
    } else {
      var last := |a| - 1;
      var c := [a[last]] + b;
      assert c[1..] == b;
      assert a[..last] + c == a + b;
      SweepIsFromRight(a[..last], c, find, word);
    }
  }

  lemma {:induction false} RightToLeftIsFromRight(s: string, find: string, word: string)
    ensures RightToLeft(s, find, word) == FromRight(s, find, word)
  {
    SweepIsFromRight(s, [], find, word);
    assert s + [] == s;
  }

  // ----- Unambiguous patterns ----------------------------------------------------------------------

  /** Two overlapping occurrences make a border. */
  lemma Overlapping(s: string, find: string, i: nat)
    requires StartsWith(s, find) && 0 < i < |find|
    ensures StartsWith(s[i..], find) ==> find[i..] == find[..|find| - i]
  {
    if StartsWith(s[i..], find) {
      var k := |find| - i;
      assert find[i..] == s[..|find|][i..] == s[i..][..k];
      assert s[i..][..k] == s[i..][..|find|][..k] == find[..k];
    }
  }

  lemma NoOverlap(s: string, find: string, word: string, i: nat)
    requires StartsWith(s, find) && |find| < |word| && Unambiguous(find, word) && 0 < i < |find|
    ensures !StartsWith(s[i..], find)
  {
    hide StartsWith;
    Overlapping(s, find, i);
    assert find[|find| - (|find| - i)..] == find[i..];
  }

  lemma SuffixShift(s: string, find: string, i: nat)
    requires StartsWith(s, find) && i < |find|
    ensures i < |s| && [s[i]] + find[i + 1..] == find[i..] && s[i..][1..] == s[i + 1..] && s[i..][0] == s[i]
    ensures s[i..] == find[i..] + s[|find|..]
  {
    assert s[i] == s[..|find|][i] == find[i];
    assert s == find + s[|find|..];
  }

  /** Without borders, an occurrence is copied unchanged by a scan that starts inside it. */
  lemma {:induction false} InsideOccurrence(s: string, find: string, word: string, i: nat)
    requires find != [] && StartsWith(s, find) && |find| < |word| && Unambiguous(find, word)
    requires 1 <= i <= |find|
    ensures Leftmost(s[i..], find, word) == find[i..] + Leftmost(s[|find|..], find, word)
    decreases |find| - i
  {
    var l := Leftmost(s[|find|..], find, word);
    hide StartsWith, Unambiguous;
    if i == |find| {
      assert find[i..] + l == l;
    } else {
      SuffixShift(s, find, i);
      NoOverlap(s, find, word, i);
      if |s[i..]| >= |find| {
        InsideOccurrence(s, find, word, i + 1);
        assert [s[i]] + (find[i + 1..] + l) == [s[i]] + find[i + 1..] + l;
      } else {
        assert l == s[|find|..];
      }
    }
  }

  /** A scan copies the text up to the first occurrence, if there is one, and puts the replacement there. */
  lemma {:induction false} FirstReplaced(u: string, find: string, word: string) returns (m: nat, rest: string)
    requires find != []
    ensures m <= |u|
    ensures Leftmost(u, find, word) == if m == |u| then u else u[..m] + word + rest
    decreases |u|
  {
    if |u| < |find| {
      m, rest := |u|, [];
    } else if StartsWith(u, find) {
      m, rest := 0, Leftmost(u[|find|..], find, word);
      assert u[..0] + word == word;
    } else {
      m, rest := FirstReplaced(u[1..], find, word);
      m := m + 1;
      assert [u[0]] + u[1..] == u;
      assert m < |u| ==> u[..m] == [u[0]] + u[1..][..m - 1];
    }
  }

  /** An occurrence at the start of copied text and then the replacement is an old one, or it ends
      with a start of the replacement. */
  lemma AcrossReplacement(s: string, n: nat, word: string, rest: string, find: string)
    requires n <= |s| && |find| < |word|
    ensures StartsWith(s[..n] + word + rest, find) ==>
              if |find| <= n then StartsWith(s, find)
              else find[|find| - (|find| - n)..] == word[..|find| - n]
  {
    var t := s[..n] + word + rest;
    if StartsWith(t, find) {
      if |find| <= n {
        assert t[..|find|] == s[..|find|];
      } else {
        assert t[..|find|][n..] == word[..|find| - n];
      }
    }
  }

  /** No occurrence appears across the start of replaced text. */
  lemma {:induction false} NoNewOccurrence(s: string, find: string, word: string)
    requires find != [] && |find| < |word| && Unambiguous(find, word)
    requires s != [] && !StartsWith(s, find)
    ensures !StartsWith([s[0]] + Leftmost(s[1..], find, word), find)
  {
    hide StartsWith, Leftmost;
    var u := s[1..];
    var m, rest := FirstReplaced(u, find, word);
    var t := [s[0]] + Leftmost(u, find, word);
    assert s == [s[0]] + u;
    if m == |u| {
    } else {
      assert t == s[..m + 1] + word + rest;
      AcrossReplacement(s, m + 1, word, rest, find);
    }
  }

  lemma {:induction false} UnambiguousAgrees(s: string, find: string, word: string)
    requires find != [] && |find| < |word| && Unambiguous(find, word)
    ensures FromRight(s, find, word) == Leftmost(s, find, word)
    decreases |s|
  {
    hide Unambiguous;
    if s == [] {
    } else {
      UnambiguousAgrees(s[1..], find, word);
      var t := [s[0]] + Leftmost(s[1..], find, word);
      if StartsWith(s, find) {
        InsideOccurrence(s, find, word, 1);
        var l := Leftmost(s[|find|..], find, word);
        SuffixShift(s, find, 0);
        assert t == [s[0]] + find[1..] + l;
        Replaces(find, l, word);
      } else {
        NoNewOccurrence(s, find, word);
        if |s| < |find| {
          assert t == s;
        }
      }
    }
  }

  lemma Replaces(find: string, rest: string, word: string)
    ensures Settle(find + rest, find, word) == word + rest
  {
  }

  // ----- Ambiguous patterns ------------------------------------------------------------------------

  lemma SettleGrows(t: string, find: string, word: string)
    requires |find| < |word|
    ensures |Settle(t, find, word)| >= |t|
    ensures |Settle(t, find, word)| == |t| ==> Settle(t, find, word) == t && !StartsWith(t, find)
  {
  }

  /** A scan from the right never shrinks the text when the replacement is longer, and if it does not
      grow it either, then nothing was replaced: the text never started with the pattern. */
  lemma {:induction false} SweepGrows(todo: string, done: string, find: string, word: string)
    requires |find| < |word|
    ensures |Sweep(todo, done, find, word)| >= |todo| + |done|
    ensures |Sweep(todo, done, find, word)| == |todo| + |done| ==>
              Sweep(todo, done, find, word) == todo + done && (todo != [] ==> !StartsWith(todo + done, find))
    decreases |todo|
  {
    hide Settle, StartsWith;
    if todo == [] {
      assert todo + done == done;
    } else {
      var last := |todo| - 1;
      var t := [todo[last]] + done;
      SettleGrows(t, find, word);
      SweepGrows(todo[..last], Settle(t, find, word), find, word);
      assert todo[..last] + t == todo + done;
    }
  }

  lemma {:induction false} ShortIsKept(s: string, find: string, word: string)
    requires |s| < |find|
    ensures FromRight(s, find, word) == s
  {
    if s == [] {
    } else {
      ShortIsKept(s[1..], find, word);
    }
  }

  lemma PatternItself(find: string, word: string)
    requires find != []
    ensures FromRight(find, find, word) == word
  {
    ShortIsKept(find[1..], find, word);
    assert [find[0]] + find[1..] == find;
  }

  lemma {:induction false} AtMostOne(s: string, find: string, word: string)
    requires find != [] && |find| < |word| && |s| < 2 * |find|
    ensures |Leftmost(s, find, word)| <= |s| + |word| - |find|
    decreases |s|
  {
    if |s| < |find| || StartsWith(s, find) {
    } else {
      AtMostOne(s[1..], find, word);
    }
  }

  /** If `r` shifted by `x` agrees with itself, and `x` starts both, `r` and the pattern agree. */
  lemma {:induction false} SamePeriod(find: string, word: string, p: nat, z: string, i: nat)
    requires 0 < p < |find| < |word| && find[p..] == find[..|find| - p]
    requires find[..p] + word == word + z
    requires i < |find|
    ensures word[i] == find[i]
  {
    assert word[i] == (word + z)[i] == (find[..p] + word)[i];
    if i < p {
    } else {
      SamePeriod(find, word, p, z, i - p);
      assert find[i] == find[p..][i - p] == find[..|find| - p][i - p];
    }
  }

  /** The text on which the two scans differ: the pattern's part before the suffix, then the pattern. */
  function Witness(find: string, k: nat): string
    requires k <= |find|
  {
    find[..|find| - k] + find
  }

  /** The text before the suffix and then the replacement start with the pattern, if the suffix
      starts the replacement. */
  lemma SuffixMeetsWord(find: string, word: string, k: nat)
    requires 0 < k < |find| < |word| && find[|find| - k..] == word[..k]
    ensures StartsWith(find[..|find| - k] + word, find)
  {
    var x := find[..|find| - k];
    assert (x + word)[..|find|] == x + word[..k] == find;
  }

  lemma BorderMeetsWord(find: string, word: string, k: nat, z: string)
    requires 0 < k < |find| < |word| && find[|find| - k..] == find[..k]
    requires find[..|find| - k] + word == word + z
    ensures StartsWith(find[..|find| - k] + word, find)
  {
    forall i | 0 <= i < k ensures word[i] == find[i] {
      SamePeriod(find, word, |find| - k, z, i);
    }
    assert word[..k] == find[..k];
    SuffixMeetsWord(find, word, k);
  }

  lemma WitnessScans(find: string, word: string, k: nat)
    requires 0 < k < |find| < |word|
    ensures RightToLeft(Witness(find, k), find, word) == Sweep(find[..|find| - k], word, find, word)
    ensures |Leftmost(Witness(find, k), find, word)| <= |find| - k + |word|
    ensures find[|find| - k..] == find[..k] ==>
              Leftmost(Witness(find, k), find, word) == word + Leftmost(Witness(find, k)[|find|..], find, word)
  {
    hide FromRight, Sweep, Settle;
    var x, s := find[..|find| - k], Witness(find, k);
    PatternItself(find, word);
    RightToLeftIsFromRight(s, find, word);
    SweepIsFromRight(x, find, find, word);
    AtMostOne(s, find, word);
    if find[|find| - k..] == find[..k] {
      assert s[..|find|] == x + find[..k] == find;
    }
  }

  lemma {:induction false} AmbiguousDiffers(find: string, word: string, k: nat)
    requires 0 < k < |find| < |word|
    requires find[|find| - k..] == find[..k] || find[|find| - k..] == word[..k]
    ensures RightToLeft(Witness(find, k), find, word) != Leftmost(Witness(find, k), find, word)
  {
    var x, rest := find[..|find| - k], Witness(find, k)[|find|..];
    hide StartsWith, Sweep, Leftmost, RightToLeft, Witness;
    WitnessScans(find, word, k);
    SweepGrows(x, word, find, word);
    if find[|find| - k..] == word[..k] {
      SuffixMeetsWord(find, word, k);
    } else if x + word == Leftmost(Witness(find, k), find, word) {
      BorderMeetsWord(find, word, k, Leftmost(rest, find, word));
    }
  }

  /** The two scans agree on every text exactly when the pattern is unambiguous. */
  lemma {:induction false} AgreeIffUnambiguous(find: string, word: string)
    requires 0 < |find| < |word|
    ensures (forall s: string :: RightToLeft(s, find, word) == Leftmost(s, find, word)) <==> Unambiguous(find, word)
  {
    if Unambiguous(find, word) {
      forall s: string ensures RightToLeft(s, find, word) == Leftmost(s, find, word) {
        RightToLeftIsFromRight(s, find, word);
        UnambiguousAgrees(s, find, word);
      }
    } else {
      hide RightToLeft, Leftmost;
      var k :| 0 < k < |find| && !(find[|find| - k..] != find[..k] && find[|find| - k..] != word[..k]);
      AmbiguousDiffers(find, word, k);
    }
  }
}
