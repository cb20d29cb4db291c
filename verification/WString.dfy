/** The buffer algorithms of the Arduino `String` class: searching, growing the buffer, replacing in place. */
module WString {
  import opened Common
  import opened Replacement
  import opened ReplacementLength

  predicate NulFree(s: string)
  {
    forall i :: 0 <= i < |s| ==> s[i] != NUL
  }

  lemma NulFreeConcat(a: string, b: string)
    ensures NulFree(a + b) <==> NulFree(a) && NulFree(b)
  {
    if NulFree(a + b) {
      forall i | 0 <= i < |a| ensures a[i] != NUL {
        assert (a + b)[i] != NUL;
      }
      forall i | 0 <= i < |b| ensures b[i] != NUL {
        assert (a + b)[|a| + i] != NUL;
      }
    }
  }

  lemma NulFreeSlice(s: string, i: nat, j: nat)
    requires NulFree(s) && i <= j <= |s|
    ensures NulFree(s[i..j])
  {
  }

  // ----- Searching -------------------------------------------------------------------------------

  ghost predicate Absent(u: string, find: string)
  {
    forall i :: 0 <= i <= |u| ==> !MatchAt(u, find, i)
  }

  ghost predicate FirstAt(u: string, find: string, m: nat)
  {
    MatchAt(u, find, m) && forall i :: 0 <= i < m ==> !MatchAt(u, find, i)
  }

  lemma MatchShift(u: string, find: string)
    ensures MatchAt(u, find, 0) <==> StartsWith(u, find)
    ensures u != [] ==> forall i: nat {:trigger MatchAt(u[1..], find, i)} :: MatchAt(u[1..], find, i) <==> MatchAt(u, find, i + 1)
  {
    assert u[0..] == u;
    if u != [] {
      forall i: nat | i <= |u[1..]| ensures u[1..][i..] == u[i + 1..] {
      }
    }
  }

  lemma {:induction false} LeftmostAbsent(u: string, find: string, word: string)
    requires find != [] && Absent(u, find)
    ensures Leftmost(u, find, word) == u
  {
    hide MatchAt, StartsWith;
    MatchShift(u, find);
    if |u| < |find| {
    } else {
      assert !MatchAt(u, find, 0);
      LeftmostAbsent(u[1..], find, word);
    }
  }

  lemma MatchFits(u: string, find: string, i: nat)
    requires MatchAt(u, find, i)
    ensures i + |find| <= |u|
  {
  }

  lemma {:induction false} LeftmostFirst(u: string, find: string, word: string, m: nat)
    requires find != [] && FirstAt(u, find, m)
    ensures m + |find| <= |u|
    ensures Leftmost(u, find, word) == u[..m] + word + Leftmost(u[m + |find|..], find, word)
    decreases m
  {
    hide MatchAt, StartsWith;
    MatchShift(u, find);
    MatchFits(u, find, m);
    if m == 0 {
      assert u[..0] + word == word;
    } else {
      assert !MatchAt(u, find, 0);
      var v := u[1..];
      LeftmostFirst(v, find, word, m - 1);
      assert v[m - 1 + |find|..] == u[m + |find|..];
      Prepend(u, v, m, word, Leftmost(u[m + |find|..], find, word));
    }
  }

  lemma Prepend(u: string, v: string, m: nat, word: string, rest: string)
    requires 0 < m <= |u| && v == u[1..]
    ensures [u[0]] + (v[..m - 1] + word + rest) == u[..m] + word + rest
  {
  }

  lemma DropDrop(s: string, i: nat, j: nat)
    requires i + j <= |s|
    ensures s[i..][j..] == s[i + j..]
  {
  }

  lemma DropTake(s: string, i: nat, j: nat)
    requires i + j <= |s|
    ensures s[i..][..j] == s[i..i + j]
  {
  }

  lemma SliceTake(s: string, i: nat, j: nat, k: nat)
    requires i + k <= j <= |s|
    ensures s[i..j][..k] == s[i..i + k]
  {
  }

  lemma SliceDrop(s: string, i: nat, j: nat, k: nat)
    requires i + k <= j <= |s|
    ensures s[i..j][k..] == s[i + k..j]
  {
  }

  /** The C string that starts at `from` in a buffer ends at `end`: no NUL before, and one there. */
  ghost predicate CString(buffer: string, from: nat, end: nat)
  {
    from <= end < |buffer| && buffer[end] == NUL && NulFree(buffer[from..end])
  }

  lemma StartsWithAt(s: string, find: string, j: nat)
    requires j < |find|
    ensures StartsWith(s, find) ==> j < |s| && s[j] == find[j]
  {
    if StartsWith(s, find) {
      assert s[j] == s[..|find|][j];
    }
  }

  /** The first occurrence in the C string from `from` to `end`. */
  ghost predicate FoundIn(buffer: string, from: nat, end: nat, find: string, at: int)
    requires from <= end <= |buffer|
  {
    from <= at && FirstAt(buffer[from..end], find, at - from)
  }

  ghost predicate AbsentIn(buffer: string, from: nat, end: nat, find: string)
    requires from <= end <= |buffer|
  {
    Absent(buffer[from..end], find)
  }

  /** `strstr`: the index of the first occurrence, or -1. */
  method Strstr(a: array<char>, from: nat, ghost end: nat, find: string) returns (at: int)
    requires CString(a[..], from, end) && find != [] && NulFree(find)
    ensures at == -1 ==> AbsentIn(a[..], from, end, find)
    ensures at != -1 ==> FoundIn(a[..], from, end, find, at)
  {
    ghost var u := a[..][from..end];
    assert u == a[from..end];
    assert forall k :: from <= k < end ==> a[k] == u[k - from] && a[k] != NUL;
    at := from;
    while a[at] != NUL
      invariant from <= at <= end
      invariant forall i :: 0 <= i < at - from ==> !MatchAt(u, find, i)
      decreases end - at
    {
      assert at < end;
      var j := 0;
      while j < |find| && a[at + j] == find[j]
        invariant j <= |find| && at + j <= end
        invariant a[at..at + j] == find[..j]
      {
        assert find[j] != NUL;
        j := j + 1;
      }
      assert a[at..end] == u[at - from..];
      if j == |find| {
        assert a[at..end][..|find|] == a[at..at + j] == find[..j] == find;
        return;
      }
      StartsWithAt(a[at..end], find, j);
      at := at + 1;
    }
    assert u[at - from..] == [];
    at := -1;
  }

  /** The largest index below `bound` at which the pattern occurs, if any. */
  ghost predicate LastBelow(t: string, find: string, bound: nat, at: int)
  {
    && -1 <= at < bound
    && (at >= 0 ==> MatchAt(t, find, at))
    && (forall i: nat :: at < i < bound ==> !MatchAt(t, find, i))
  }

  /** `lastIndexOf(find, fromIndex)` on the string in `a`: repeated `strstr`, one step further each time. */
  method LastIndexOf(a: array<char>, len: nat, find: string, from: nat) returns (found: int)
    requires CString(a[..], 0, len) && NulFree(find)
    ensures find == [] || len == 0 ==> found == -1
    ensures find != [] && len > 0 ==> LastBelow(a[..][..len], find, if from < len then from + 1 else len, found)
  {
    ghost var t := a[..][..len];
    if find == [] || len == 0 || |find| > len {
      return -1;
    }
    var fromIndex := if from >= len then len - 1 else from;
    found := -1;
    var p := 0;
    while p <= fromIndex
      invariant 0 <= p <= len && -1 <= found < p && found <= fromIndex
      invariant found >= 0 ==> MatchAt(t, find, found)
      invariant forall i: nat :: found < i < p && i <= fromIndex ==> !MatchAt(t, find, i)
      decreases len - p
    {
      CStringTail(a[..], len, p);
      var q := Strstr(a, p, len, find);
      MatchSuffix(t, find, p);
      if q == -1 {
        forall i: nat | p <= i <= fromIndex ensures !MatchAt(t, find, i) {
          assert !MatchAt(t[p..], find, i - p);
        }
        return;
      }
      forall i: nat | p <= i < q ensures !MatchAt(t, find, i) {
        assert !MatchAt(t[p..], find, i - p);
      }
      p := q;
      if p <= fromIndex {
        found := p;
      }
      p := p + 1;
    }
  }

  lemma CStringBound(buffer: string, from: nat, end: nat)
    requires CString(buffer, from, end)
    ensures from <= end < |buffer|
  {
  }

  lemma CStringTail(buffer: string, len: nat, from: nat)
    requires CString(buffer, 0, len) && from <= len
    ensures CString(buffer, from, len) && buffer[from..len] == buffer[..len][from..]
  {
    assert buffer[from..len] == buffer[0..len][from..];
  }

  lemma MatchSuffix(t: string, find: string, p: nat)
    requires p <= |t|
    ensures forall i: nat {:trigger MatchAt(t[p..], find, i)} :: MatchAt(t[p..], find, i) <==> MatchAt(t, find, p + i)
  {
    forall i: nat | i <= |t[p..]| ensures t[p..][i..] == t[p + i..] {
    }
  }

  /** Positions without an occurrence do not change under a scan from the right. */
  lemma {:induction false} SweepSkips(t: string, hi: nat, lo: nat, find: string, word: string)
    requires lo <= hi <= |t|
    requires forall i :: lo <= i < hi ==> !MatchAt(t, find, i)
    ensures Sweep(t[..hi], t[hi..], find, word) == Sweep(t[..lo], t[lo..], find, word)
    decreases hi
  {
    if hi == lo {
    } else {
      assert !MatchAt(t, find, hi - 1);
      assert t[..hi][..hi - 1] == t[..hi - 1] && [t[hi - 1]] + t[hi..] == t[hi - 1..];
      SweepSkips(t, hi - 1, lo, find, word);
    }
  }

  /** An occurrence is replaced when a scan from the right reaches it. */
  lemma SweepReplaces(t: string, at: nat, find: string, word: string)
    requires at < |t| && MatchAt(t, find, at)
    ensures at + |find| <= |t|
    ensures Sweep(t[..at + 1], t[at + 1..], find, word) == Sweep(t[..at], word + t[at + |find|..], find, word)
  {
    assert t[..at + 1][..at] == t[..at] && [t[at]] + t[at + 1..] == t[at..];
    assert t[at..][|find|..] == t[at + |find|..];
  }

  // ----- Moving characters -------------------------------------------------------------------------

  function Moved(b: string, dst: nat, src: nat, n: nat): (r: string)
    requires dst + n <= |b| && src + n <= |b|
    ensures |r| == |b|
  {
    b[..dst] + b[src..src + n] + b[dst + n..]
  }

  /** `memmove` within one buffer. */
  method Move(a: array<char>, dst: nat, src: nat, n: nat)
    requires dst + n <= a.Length && src + n <= a.Length
    modifies a
    ensures a[..] == Moved(old(a[..]), dst, src, n)
  {
    forall i | 0 <= i < n {
      a[dst + i] := a[src + i];
    }
  }

  // ----- The equal-length and shrinking branches -----------------------------------------------------

  /** Between turns of these loops: `kept` characters are final, and the unread text, from `from` to
      the old end, is as it was. */
  ghost predicate Rewriting(s: string, find: string, word: string, buffer: string, kept: nat, from: nat)
    requires find != []
  {
    && kept <= from <= |s| < |buffer|
    && buffer[|s|] == NUL
    && buffer[from..|s|] == s[from..]
    && NulFree(s) && NulFree(buffer[..kept])
    && Leftmost(s, find, word) == buffer[..kept] + Leftmost(s[from..], find, word)
  }

  lemma RewritingStarts(find: string, word: string, buffer: string, len: nat)
    requires find != [] && CString(buffer, 0, len)
    ensures Rewriting(buffer[..len], find, word, buffer, 0, 0)
  {
    hide Leftmost;
    var s := buffer[..len];
    assert buffer[0..len] == s && s[0..] == s && buffer[..0] == [];
  }

  lemma RewritingUnread(s: string, find: string, word: string, buffer: string, kept: nat, from: nat)
    requires find != [] && Rewriting(s, find, word, buffer, kept, from)
    ensures kept <= from <= |s| && CString(buffer, from, |s|)
  {
    hide Leftmost;
    NulFreeSlice(s, from, |s|);
  }

  /** What an occurrence in the unread text means for the result. */
  lemma RewritingFound(s: string, find: string, word: string, buffer: string, kept: nat, from: nat, at: int)
    requires find != [] && Rewriting(s, find, word, buffer, kept, from) && FoundIn(buffer, from, |s|, find, at)
    ensures from <= at && at + |find| <= |s|
    ensures Leftmost(s, find, word) == buffer[..kept] + s[from..at] + word + Leftmost(s[at + |find|..], find, word)
  {
    hide FirstAt, Leftmost, NulFree;
    LeftmostFirst(s[from..], find, word, at - from);
    DropDrop(s, from, at - from + |find|);
    DropTake(s, from, at - from);
    Glue(buffer[..kept], s[from..at], word, Leftmost(s[at + |find|..], find, word));
  }

  lemma Glue(a: string, b: string, c: string, d: string)
    ensures a + (b + c + d) == a + b + c + d
  {
  }

  /** One turn: the text before the occurrence is moved down, the replacement put after it. */
  lemma RewritingTurn(s: string, find: string, word: string, buffer: string, kept: nat, from: nat, at: nat)
    requires find != [] && |word| <= |find| && NulFree(word)
    requires Rewriting(s, find, word, buffer, kept, from) && FoundIn(buffer, from, |s|, find, at)
    ensures from <= at && at + |find| <= |s|
    ensures Rewriting(s, find, word, Placed(Moved(buffer, kept, from, at - from), kept + at - from, word),
                      kept + at - from + |word|, at + |find|)
  {
    hide FoundIn, Leftmost, Moved, NulFree, Placed;
    RewritingFound(s, find, word, buffer, kept, from, at);
    var m, from' := at - from, at + |find|;
    SliceTake(buffer, from, |s|, m);
    DropTake(s, from, m);
    MovedDown(buffer, kept, from, m, word, from');
    TailKept(buffer, Placed(Moved(buffer, kept, from, m), kept + m, word), from, from', |s|);
    DropDrop(s, from, m + |find|);
    NulFreeSlice(s, from, at);
    NulFreeConcat(buffer[..kept], s[from..at]);
    NulFreeConcat(buffer[..kept] + s[from..at], word);
  }

  lemma TailKept(b: string, next: string, from: nat, from': nat, end: nat)
    requires from <= from' <= end < |b| == |next| && next[from'..] == b[from'..]
    ensures next[end] == b[end] && next[from'..end] == b[from..end][from' - from..]
  {
    SliceDrop(b, from, end, from' - from);
    DropTake(b, from', end - from');
    DropTake(next, from', end - from');
    assert next[from'..][end - from'] == b[from'..][end - from'];
  }

  lemma MovedDown(b: string, kept: nat, from: nat, m: nat, word: string, from': nat)
    requires kept <= from && from + m + |word| <= from' <= |b|
    ensures var next := Placed(Moved(b, kept, from, m), kept + m, word);
            && |next| == |b|
            && next[..kept + m + |word|] == b[..kept] + b[from..from + m] + word
            && next[from'..] == b[from'..]
  {
    var moved := Moved(b, kept, from, m);
    assert moved[..kept + m] == b[..kept] + b[from..from + m];
    assert moved[from'..] == b[from'..];
    TailAfter(moved[..kept + m], word, moved[kept + m + |word|..], from');
    assert moved[kept + m + |word|..][from' - (kept + m + |word|)..] == moved[from'..];
  }

  lemma TailAfter(a: string, b: string, c: string, i: nat)
    requires |a| + |b| <= i <= |a| + |b| + |c|
    ensures (a + b + c)[i..] == c[i - |a| - |b|..] && (a + b + c)[..|a| + |b|] == a + b
  {
  }

  /** With equal lengths nothing moves. */
  lemma MovedNowhere(b: string, at: nat, n: nat)
    requires at + n <= |b|
    ensures Moved(b, at, at, n) == b
  {
  }

  lemma RewritingEnds(s: string, find: string, word: string, buffer: string, kept: nat, from: nat)
    requires find != [] && Rewriting(s, find, word, buffer, kept, from) && AbsentIn(buffer, from, |s|, find)
    ensures Leftmost(s, find, word) == buffer[..kept] + buffer[from..|s|]
    ensures NulFree(Leftmost(s, find, word))
  {
    hide Absent, Leftmost, NulFree;
    LeftmostAbsent(s[from..], find, word);
    NulFreeSlice(s, from, |s|);
    assert s[from..|s|] == s[from..];
    NulFreeConcat(buffer[..kept], s[from..]);
  }

  /** The end of the equal-length loop. */
  lemma RewritingWhole(s: string, find: string, word: string, buffer: string, at: nat)
    requires find != [] && Rewriting(s, find, word, buffer, at, at) && AbsentIn(buffer, at, |s|, find)
    ensures CString(buffer, 0, |s|) && buffer[..|s|] == Leftmost(s, find, word)
  {
    hide Leftmost, NulFree;
    RewritingEnds(s, find, word, buffer, at, at);
    assert buffer[0..|s|] == buffer[..|s|] == buffer[..at] + buffer[at..|s|];
  }

  /** The end of the shrinking loop: the unread text and its terminator are moved down. */
  lemma RewritingCloses(s: string, find: string, word: string, buffer: string, kept: nat, from: nat)
    requires find != [] && Rewriting(s, find, word, buffer, kept, from) && AbsentIn(buffer, from, |s|, find)
    ensures var next, end := Moved(buffer, kept, from, |s| + 1 - from), kept + |s| - from;
            CString(next, 0, end) && next[..end] == Leftmost(s, find, word)
  {
    hide Leftmost, NulFree;
    RewritingEnds(s, find, word, buffer, kept, from);
    var next, end := Moved(buffer, kept, from, |s| + 1 - from), kept + |s| - from;
    assert next[..end] == buffer[..kept] + buffer[from..|s|];
    assert next[0..end] == next[..end];
  }

  method ReplaceEqual(a: array<char>, len: nat, find: string, word: string)
    requires CString(a[..], 0, len) && NulFree(find) && NulFree(word) && 0 < |find| == |word|
    modifies a
    ensures CString(a[..], 0, len) && a[..][..len] == Leftmost(old(a[..])[..len], find, word)
  {
    hide *;
    CStringBound(a[..], 0, len);
    ghost var s := a[..][..len];
    RewritingStarts(find, word, a[..], len);
    var readFrom: nat := 0;
    while true
      invariant readFrom <= len && Rewriting(s, find, word, a[..], readFrom, readFrom)
      decreases len - readFrom
    {
      RewritingUnread(s, find, word, a[..], readFrom, readFrom);
      var foundAt := Strstr(a, readFrom, len, find);
      if foundAt == -1 {
        break;
      }
      ghost var before := a[..];
      RewritingFound(s, find, word, before, readFrom, readFrom, foundAt);
      RewritingTurn(s, find, word, before, readFrom, readFrom, foundAt);
      MovedNowhere(before, readFrom, foundAt - readFrom);
      CopyTo(a, foundAt, word);
      readFrom := foundAt + |word|;
    }
    RewritingWhole(s, find, word, a[..], readFrom);
  }

  /** The two copies of a shrinking turn. */
  method ShiftDown(a: array<char>, kept: nat, from: nat, n: nat, word: string)
    requires kept <= from && from + n + |word| <= a.Length
    modifies a
    ensures a[..] == Placed(Moved(old(a[..]), kept, from, n), kept + n, word)
  {
    Move(a, kept, from, n);
    CopyTo(a, kept + n, word);
  }

  /** `strcpy` within one buffer. */
  method Strcpy(a: array<char>, dst: nat, src: nat, ghost end: nat)
    requires dst <= src && CString(a[..], src, end)
    modifies a
    ensures a[..] == Moved(old(a[..]), dst, src, end + 1 - src)
  {
    assert forall k :: src <= k < end ==> a[k] == a[..][src..end][k - src] && a[k] != NUL;
    var n := 0;
    while a[src + n] != NUL
      invariant src + n <= end
      decreases end - n
    {
      n := n + 1;
    }
    Move(a, dst, src, n + 1);
  }

  method ReplaceShrinking(a: array<char>, len0: nat, find: string, word: string) returns (len: nat)
    requires CString(a[..], 0, len0) && NulFree(find) && NulFree(word) && |word| < |find|
    modifies a
    ensures CString(a[..], 0, len) && a[..][..len] == Leftmost(old(a[..])[..len0], find, word)
  {
    hide *;
    CStringBound(a[..], 0, len0);
    ghost var s := a[..][..len0];
    RewritingStarts(find, word, a[..], len0);
    var readFrom: nat, writeTo: nat := 0, 0;
    len := len0;
    while true
      invariant writeTo <= readFrom <= len0 && Rewriting(s, find, word, a[..], writeTo, readFrom)
      invariant len == writeTo + len0 - readFrom
      decreases len0 - readFrom
    {
      RewritingUnread(s, find, word, a[..], writeTo, readFrom);
      var foundAt := Strstr(a, readFrom, len0, find);
      if foundAt == -1 {
        break;
      }
      RewritingTurn(s, find, word, a[..], writeTo, readFrom, foundAt);
      var n := foundAt - readFrom;
      ShiftDown(a, writeTo, readFrom, n, word);
      writeTo := writeTo + n + |word|;
      readFrom := foundAt + |find|;
      len := len - (|find| - |word|);
    }
    RewritingCloses(s, find, word, a[..], writeTo, readFrom);
    Strcpy(a, writeTo, readFrom, len0);
  }

  // ----- The growing branch ----------------------------------------------------------------------------

  /** The size the growing branch computes before it touches the buffer. */
  method GrownSize(a: array<char>, len: nat, find: string, word: string) returns (size: nat)
    requires CString(a[..], 0, len) && NulFree(find) && 0 < |find| < |word|
    ensures size == |Leftmost(a[..][..len], find, word)|
  {
    hide *;
    CStringBound(a[..], 0, len);
    ghost var s := a[..][..len];
    assert s[0..] == s;
    var readFrom: nat := 0;
    size := len;
    while true
      invariant readFrom <= len
      invariant size + |Leftmost(s[readFrom..], find, word)| == |Leftmost(s, find, word)| + len - readFrom
      decreases len - readFrom
    {
      CStringTail(a[..], len, readFrom);
      var foundAt := Strstr(a, readFrom, len, find);
      if foundAt == -1 {
        break;
      }
      SizeStep(a[..], len, find, word, readFrom, foundAt);
      readFrom := foundAt + |find|;
      size := size + (|word| - |find|);
    }
    SizeDone(a[..], len, find, word, readFrom);
  }

  lemma SizeStep(buffer: string, len: nat, find: string, word: string, from: nat, at: int)
    requires find != [] && from <= len <= |buffer| && FoundIn(buffer, from, len, find, at)
    ensures from <= at && at + |find| <= len
    ensures |Leftmost(buffer[..len][from..], find, word)|
         == at - from + |word| + |Leftmost(buffer[..len][at + |find|..], find, word)|
  {
    hide *;
    FoundFirst(buffer, from, len, find, at);
    LeftmostFirst(buffer[from..len], find, word, at - from);
    SliceDrop(buffer, 0, len, from);
    SliceDrop(buffer, from, len, at - from + |find|);
    SliceDrop(buffer, 0, len, at + |find|);
    assert buffer[0..len] == buffer[..len];
  }

  lemma FoundFirst(buffer: string, from: nat, end: nat, find: string, at: int)
    requires from <= end <= |buffer| && FoundIn(buffer, from, end, find, at)
    ensures from <= at && FirstAt(buffer[from..end], find, at - from)
  {
  }

  lemma SizeDone(buffer: string, len: nat, find: string, word: string, from: nat)
    requires find != [] && from <= len <= |buffer| && AbsentIn(buffer, from, len, find)
    ensures |Leftmost(buffer[..len][from..], find, word)| == len - from
  {
    var u := buffer[..len][from..];
    assert u == buffer[from..len];
    LeftmostAbsent(u, find, word);
  }

  /** Between turns of the growing loop: scanning what is at or below `index` gives the result. */
  ghost predicate Growing(target: string, find: string, word: string, buffer: string, len: nat, index: int)
  {
    && len < |buffer|
    && CString(buffer, 0, len)
    && -1 <= index < len
    && Scanning(target, find, word, buffer[..len], index)
  }

  ghost predicate Scanning(target: string, find: string, word: string, t: string, index: int)
    requires -1 <= index < |t|
  {
    Sweep(t[..index + 1], t[index + 1..], find, word) == target
  }

  /** The text with the occurrence at `at` replaced. */
  function Replaced(t: string, at: nat, n: nat, word: string): string
    requires at + n <= |t|
  {
    t[..at] + word + t[at + n..]
  }

  /** One turn, on the text: the scan goes on below the replacement, and the text still fits. */
  lemma ScanningTurn(target: string, find: string, word: string, t: string, index: int, at: nat)
    requires 0 < |find| < |word| && -1 <= index < |t|
    requires Scanning(target, find, word, t, index) && LastBelow(t, find, index + 1, at)
    ensures at <= index && at + |find| <= |t|
    ensures Scanning(target, find, word, Replaced(t, at, |find|, word), at - 1)
    ensures |Replaced(t, at, |find|, word)| <= |target|
  {
    hide MatchAt, Replaced, StartsWith, Sweep;
    SweepSkips(t, index + 1, at + 1, find, word);
    SweepReplaces(t, at, find, word);
    SweepGrows(t[..at], word + t[at + |find|..], find, word);
    ReplacedSplit(t, at, |find|, word);
  }

  lemma ReplacedSplit(t: string, at: nat, n: nat, word: string)
    requires at + n <= |t|
    ensures |Replaced(t, at, n, word)| == |t| + |word| - n
    ensures Replaced(t, at, n, word)[..at] == t[..at] && Replaced(t, at, n, word)[at..] == word + t[at + n..]
  {
  }

  lemma ReplacedNulFree(t: string, at: nat, n: nat, word: string)
    requires at + n <= |t| && NulFree(t) && NulFree(word)
    ensures NulFree(Replaced(t, at, n, word))
  {
    hide NulFree;
    NulFreeSlice(t, 0, at);
    NulFreeSlice(t, at + n, |t|);
    assert t[0..at] == t[..at] && t[at + n..|t|] == t[at + n..];
    NulFreeConcat(t[..at], word);
    NulFreeConcat(t[..at] + word, t[at + n..]);
  }

  lemma CStringWhole(buffer: string, len: nat)
    requires len < |buffer|
    ensures CString(buffer, 0, len) <==> buffer[len] == NUL && NulFree(buffer[..len])
  {
    assert buffer[0..len] == buffer[..len];
  }

  lemma GrowingTurn(target: string, find: string, word: string, buffer: string, len: nat, index: int, at: int,
                    next: string, len': nat)
    requires 0 < |find| < |word| && NulFree(word) && len' == len + |word| - |find|
    requires Growing(target, find, word, buffer, len, index) && LastBelow(buffer[..len], find, index + 1, at) && at >= 0
    requires |next| == |buffer| && len' < |next| && next[len'] == NUL && at + |find| <= len
    requires next[..len'] == Replaced(buffer[..len], at, |find|, word)
    ensures Growing(target, find, word, next, len', at - 1)
  {
    hide CString, LastBelow, NulFree, Replaced, Scanning;
    ScanningTurn(target, find, word, buffer[..len], index, at);
    CStringWhole(buffer, len);
    CStringWhole(next, len');
    ReplacedNulFree(buffer[..len], at, |find|, word);
  }

  lemma GrowingRoom(target: string, find: string, word: string, buffer: string, len: nat, index: int, at: int)
    requires 0 < |find| < |word|
    requires len <= |buffer| && Growing(target, find, word, buffer, len, index)
    requires LastBelow(buffer[..len], find, index + 1, at) && at >= 0
    ensures at <= index && at + |find| <= len && len + |word| - |find| <= |target|
  {
    hide CString, LastBelow, Scanning;
    ScanningTurn(target, find, word, buffer[..len], index, at);
  }

  lemma GrowingEnds(target: string, find: string, word: string, buffer: string, len: nat, index: int)
    requires Growing(target, find, word, buffer, len, index) && LastBelow(buffer[..len], find, index + 1, -1)
    ensures CString(buffer, 0, len) && buffer[..len] == target && |target| < |buffer|
  {
    hide CString;
    var t := buffer[..len];
    SweepSkips(t, index + 1, 0, find, word);
    assert t[..0] == [] && t[0..] == t;
  }

  lemma GrowingStarts(find: string, word: string, buffer: string, len: nat)
    requires CString(buffer, 0, len) && len > 0
    ensures Growing(RightToLeft(buffer[..len], find, word), find, word, buffer, len, len - 1)
  {
    hide CString, Sweep;
    CStringBound(buffer, 0, len);
    var s := buffer[..len];
    assert s[..len] == s && s[len..] == [];
  }

  lemma MovedUp(b: string, len: nat, at: nat, n: nat, word: string)
    requires n < |word| && at + n <= len && len + |word| - n < |b|
    ensures var moved := Moved(b, at + |word|, at + n, len - (at + n));
            && |moved| == |b|
            && var next := Placed(moved[len + |word| - n := NUL], at, word);
            && |next| == |b| && next[len + |word| - n] == NUL
            && next[..len + |word| - n] == Replaced(b[..len], at, n, word)
  {
    var len' := len + |word| - n;
    var moved := Moved(b, at + |word|, at + n, len - (at + n));
    var ended := moved[len' := NUL];
    assert ended[..at] == moved[..at] == b[..len][..at];
    assert ended[at + |word|..len'] == moved[at + |word|..len'] == b[at + n..len] == b[..len][at + n..];
    var next := Placed(ended, at, word);
    assert next[..len'] == ended[..at] + word + ended[at + |word|..len'];
  }

  /** The copies of a growing turn: open a gap, terminate, put the replacement. */
  method OpenGap(a: array<char>, len: nat, at: nat, n: nat, word: string) returns (len': nat)
    requires n < |word| && at + n <= len && len + |word| - n < a.Length
    modifies a
    ensures len' == len + |word| - n && a[..][len'] == NUL
    ensures a[..][..len'] == Replaced(old(a[..])[..len], at, n, word)
  {
    hide *;
    ghost var b := a[..];
    var diff, readFrom := |word| - n, at + n;
    Move(a, readFrom + diff, readFrom, len - readFrom);
    len' := len + diff;
    ghost var moved := a[..];
    a[len'] := NUL;
    assert a[..] == moved[len' := NUL];
    CopyTo(a, at, word);
    MovedUp(b, len, at, n, word);
  }

  /** A whole growing turn, with what it keeps. Text that does not fit the buffer is not written: in the
      source that write goes past the buffer. */
  method Grow(a: array<char>, len: nat, find: string, word: string, at: nat, ghost target: string, ghost index: int)
    returns (len': nat, inBounds: bool)
    requires 0 < |find| < |word| && NulFree(word)
    requires len <= a.Length && Growing(target, find, word, a[..], len, index)
    requires LastBelow(a[..][..len], find, index + 1, at)
    modifies a
    ensures !inBounds ==> |target| >= a.Length
    ensures inBounds ==> at <= index && len' <= a.Length && Growing(target, find, word, a[..], len', at - 1)
  {
    hide *;
    ghost var before := a[..];
    GrowingRoom(target, find, word, before, len, index, at);
    len' := len + |word| - |find|;
    if len' >= a.Length {
      return len', false;
    }
    len' := OpenGap(a, len, at, |find|, word);
    inBounds := true;
    GrowingTurn(target, find, word, before, len, index, at, a[..], len');
  }

  /** The growing loop: it stays in the buffer exactly when its result fits. */
  method ReplaceGrowing(a: array<char>, len0: nat, find: string, word: string) returns (len: nat, inBounds: bool)
    requires CString(a[..], 0, len0) && NulFree(find) && NulFree(word) && 0 < |find| < |word| && len0 > 0
    modifies a
    ensures inBounds <==> |RightToLeft(old(a[..])[..len0], find, word)| < a.Length
    ensures inBounds ==> CString(a[..], 0, len) && a[..][..len] == RightToLeft(old(a[..])[..len0], find, word)
  {
    hide *;
    CStringBound(a[..], 0, len0);
    ghost var target := RightToLeft(a[..][..len0], find, word);
    GrowingStarts(find, word, a[..], len0);
    len, inBounds := len0, true;
    var index := len - 1;
    while index >= 0
      invariant -1 <= index < len && Growing(target, find, word, a[..], len, index)
      invariant inBounds
      decreases index
    {
      GrowingCString(target, find, word, a[..], len, index);
      ghost var bound := index;
      index := LastIndexOf(a, len, find, index);
      LastAtLeast(a[..][..len], find, bound + 1, index);
      if index < 0 {
        GrowingEnds(target, find, word, a[..], len, bound);
        return;
      }
      len, inBounds := Grow(a, len, find, word, index, target, bound);
      if !inBounds {
        return;
      }
      index := index - 1;
      GrowingCString(target, find, word, a[..], len, index);
    }
    GrowingCString(target, find, word, a[..], len, index);
    NoneBelowZero(a[..][..len], find);
    GrowingEnds(target, find, word, a[..], len, index);
  }

  lemma LastAtLeast(t: string, find: string, bound: nat, at: int)
    requires LastBelow(t, find, bound, at)
    ensures -1 <= at < bound
  {
  }

  lemma NoneBelowZero(t: string, find: string)
    ensures LastBelow(t, find, 0, -1)
  {
  }

  lemma GrowingCString(target: string, find: string, word: string, buffer: string, len: nat, index: int)
    requires Growing(target, find, word, buffer, len, index)
    ensures CString(buffer, 0, len) && -1 <= index < len < |buffer|
  {
  }

  // ----- The class -------------------------------------------------------------------------------------

  /** The capacity that `changeBuffer` allocates: one less than a multiple of 16. */
  function RoundedCapacity(size: nat): (c: nat)
    ensures c >= size && (c + 1) % 16 == 0 && c < size + 16
  {
    (size + 16) / 16 * 16 - 1
  }

  /** The capacity after `reserve(size)` in a string that has a buffer. */
  function Reserved(capacity: nat, size: nat): (c: nat)
    ensures c >= size && c >= capacity
  {
    if size > capacity then RoundedCapacity(size) else capacity
  }

  class String {
    var buffer: array?<char>
    var capacity: nat
    var len: nat

    ghost predicate Valid()
      reads this, buffer
    {
      if buffer == null then capacity == 0 && len == 0
      else buffer.Length == capacity + 1 && len <= capacity && CString(buffer[..], 0, len)
    }

    ghost function Contents(): string
      requires Valid()
      reads this, buffer
    {
      if buffer == null then [] else buffer[..][..len]
    }

    /** A string that owns no buffer yet. */
    constructor ()
      ensures Valid() && Contents() == [] && buffer == null
    {
      buffer, capacity, len := null, 0, 0;
    }

    /** `reserve(size)`, with `changeBuffer`: the text survives the move to a larger buffer. */
    method Reserve(size: nat)
      requires Valid()
      modifies this
      ensures Valid() && Contents() == old(Contents()) && len == old(len)
      ensures buffer != null && capacity >= size
      ensures capacity == if old(buffer) == null then RoundedCapacity(size) else Reserved(old(capacity), size)
      ensures buffer == old(buffer) || fresh(buffer)
      ensures old(buffer) != null && size <= old(capacity) ==> buffer == old(buffer)
    {
      if buffer != null && capacity >= size {
        return;
      }
      var newSize := RoundedCapacity(size);
      var newBuffer := new char[newSize + 1](_ => NUL);
      if buffer != null {
        forall i | 0 <= i <= capacity {
          newBuffer[i] := buffer[i];
        }
        assert newBuffer[..][..capacity + 1] == buffer[..];
        SamePrefix(buffer[..], newBuffer[..], len);
      } else {
        assert newBuffer[..][0..0] == [];
      }
      buffer, capacity := newBuffer, newSize;
    }

    /** `replace`: whether it stays in its buffer, and what it leaves if it does. */
    method Replace(find: string, word: string) returns (inBounds: bool)
      requires Valid() && NulFree(find) && NulFree(word)
      modifies this, buffer
      ensures inBounds <==> Fits(old(Contents()), old(capacity), find, word)
      ensures inBounds ==> Valid()
      ensures find == [] || |word| <= |find| || |Leftmost(old(Contents()), find, word)| <= old(capacity) ==>
                buffer == old(buffer) && capacity == old(capacity)
      ensures inBounds ==>
                Contents() == if old(Contents()) == [] || find == [] then old(Contents())
                              else if |word| <= |find| then Leftmost(old(Contents()), find, word)
                              else RightToLeft(old(Contents()), find, word)
    {
      inBounds := true;
      if len == 0 || find == [] {
        assert len == 0 ==> Contents() == [];
        return;
      }
      CStringBound(buffer[..], 0, len);
      if |word| == |find| {
        ReplaceEqual(buffer, len, find, word);
      } else if |word| < |find| {
        len := ReplaceShrinking(buffer, len, find, word);
        CStringBound(buffer[..], 0, len);
      } else {
        var size := GrownSize(buffer, len, find, word);
        if size == len {
          NothingToReplace(Contents(), find, word);
          return;
        }
        if size > capacity {
          Reserve(size);
        }
        len, inBounds := ReplaceGrowing(buffer, len, find, word);
        if inBounds {
          CStringBound(buffer[..], 0, len);
        }
      }
    }
  }

  /** A string with a buffer ends there with a zero character and has none before. */
  lemma Terminated(s: String)
    requires s.Valid() && s.buffer != null
    ensures s.len < s.buffer.Length && s.buffer[s.len] == '\0'
    ensures forall i :: 0 <= i < s.len ==> s.buffer[i] != '\0'
  {
    assert forall i :: 0 <= i < s.len ==> s.buffer[i] == s.buffer[..][0..s.len][i];
  }

  /** A growing result fits the buffer that is reserved for the leftmost replacement. */
  predicate Fits(s: string, capacity: nat, find: string, word: string)
  {
    s != [] && 0 < |find| < |word| ==> |RightToLeft(s, find, word)| <= Reserved(capacity, |Leftmost(s, find, word)|)
  }

  lemma SamePrefix(a: string, b: string, len: nat)
    requires CString(a, 0, len) && |a| <= |b| && b[..|a|] == a
    ensures CString(b, 0, len) && b[..len] == a[..len]
  {
    assert b[..len] == b[..|a|][..len];
    assert b[0..len] == b[..len] && a[0..len] == a[..len];
    assert b[len] == b[..|a|][len];
  }

  /** If the leftmost replacement does not grow the text, there is no occurrence. */
  lemma {:induction false} NothingToReplace(s: string, find: string, word: string)
    requires 0 < |find| < |word| && |Leftmost(s, find, word)| == |s|
    ensures RightToLeft(s, find, word) == s
  {
    hide Leftmost;
    LeftmostGrows(s, find, word);
    SweepSkips(s, |s|, 0, find, word);
    assert s[..|s|] == s && s[|s|..] == [] && s[..0] == [] && s[0..] == s;
  }

  lemma {:induction false} LeftmostGrows(s: string, find: string, word: string)
    requires 0 < |find| < |word|
    ensures |Leftmost(s, find, word)| >= |s|
    ensures |Leftmost(s, find, word)| == |s| ==> Absent(s, find)
    decreases |s|
  {
    hide MatchAt;
    MatchShift(s, find);
    if |s| < |find| {
      MatchesFit(s, find);
    } else if StartsWith(s, find) {
      LeftmostGrows(s[|find|..], find, word);
    } else {
      LeftmostGrows(s[1..], find, word);
      if |Leftmost(s, find, word)| == |s| {
        forall i | 0 <= i <= |s| ensures !MatchAt(s, find, i) {
          if i > 0 {
            assert !MatchAt(s[1..], find, i - 1);
          }
        }
      }
    }
  }

  lemma MatchesFit(s: string, find: string)
    requires |s| < |find|
    ensures Absent(s, find)
  {
  }

  // ----- When the buffer is large enough -----------------------------------------------------------------

  /** `replace` stays in its buffer for every string and capacity exactly when no proper, non-empty suffix of
      the pattern starts the replacement. */
  lemma FitsIffSafe(find: string, word: string)
    requires 0 < |find| < |word| && NulFree(find)
    ensures (forall s: string, capacity: nat :: NulFree(s) && |s| <= capacity ==> Fits(s, capacity, find, word))
       <==> Safe(find, word)
  {
    hide RightToLeft, Leftmost, Fits;
    if Safe(find, word) {
      forall s: string, capacity: nat ensures Fits(s, capacity, find, word) {
        SafeFits(s, capacity, find, word);
      }
    } else {
      var k :| 0 < k < |find| && Meets(find, word, k);
      var s := UnsafeOverruns(find, word, k);
      assert !Fits(s, |s|, find, word);
    }
  }

  lemma SafeFits(s: string, capacity: nat, find: string, word: string)
    requires 0 < |find| < |word| && Safe(find, word)
    ensures Fits(s, capacity, find, word)
  {
    hide RightToLeft, Leftmost, FromRight, Safe;
    RightToLeftIsFromRight(s, find, word);
    SafeNeverLonger(s, find, word);
  }

  /** With a buffer that the text fills, 16 characters more than were counted are too many. */
  lemma UnsafeOverruns(find: string, word: string, k: nat) returns (s: string)
    requires 0 < k < |find| < |word| && Meets(find, word, k) && NulFree(find)
    ensures NulFree(s) && !Fits(s, |s|, find, word)
  {
    hide RightToLeft, Leftmost, FromRight, Meets;
    s := UnsafeLonger(find, word, k, 16);
    Nothing(find, word);
    RightToLeftIsFromRight(s, find, word);
    LeftmostGrows(s, find, word);
  }

  /** A safe replacement always stays in the buffer. */
  method ReplaceSafe(s: String, find: string, word: string)
    requires s.Valid() && NulFree(find) && NulFree(word) && find != []
    requires |word| <= |find| || Safe(find, word)
    modifies s, s.buffer
    ensures s.Valid()
    ensures s.Contents() == if old(s.Contents()) == [] then []
                            else if |word| <= |find| then Leftmost(old(s.Contents()), find, word)
                            else RightToLeft(old(s.Contents()), find, word)
  {
    hide RightToLeft, Safe, Leftmost, CString, Fits;
    if |word| > |find| {
      SafeFits(s.Contents(), s.capacity, find, word);
    } else {
      ShrinkingFits(s.Contents(), s.capacity, find, word);
    }
    var inBounds := s.Replace(find, word);
  }

  lemma ShrinkingFits(s: string, capacity: nat, find: string, word: string)
    requires |word| <= |find|
    ensures Fits(s, capacity, find, word)
  {
  }

  /** For an unambiguous pattern the text left is the one with the leftmost occurrences replaced. */
  method ReplaceUnambiguous(s: String, find: string, word: string)
    requires s.Valid() && NulFree(find) && NulFree(word) && find != []
    requires |word| <= |find| || Unambiguous(find, word)
    modifies s, s.buffer
    ensures s.Valid() && s.Contents() == Leftmost(old(s.Contents()), find, word)
  {
    hide RightToLeft, Unambiguous, Safe, Leftmost, CString;
    LeftmostOfNothing(find, word);
    if |word| > |find| {
      UnambiguousIsSafe(find, word);
      RightToLeftIsFromRight(s.Contents(), find, word);
      UnambiguousAgrees(s.Contents(), find, word);
    }
    ReplaceSafe(s, find, word);
  }

  lemma LeftmostOfNothing(find: string, word: string)
    requires find != []
    ensures Leftmost([], find, word) == []
  {
  }

  /** A border alone is safe: "aa" starts with its own end, but "bbbb" does not. */
  lemma BorderIsSafe()
    ensures Safe("aa", "bbbb") && !Unambiguous("aa", "bbbb")
  {
    assert "aa"[1..] == "aa"[..1];
    assert "aa"[1..][0] != "bbbb"[..1][0];
  }

  /** An unsafe pattern, a text and a capacity: one occurrence is counted and two are replaced. */
  lemma GrowthCanOverflow(word: string)
    requires |word| == 17 && forall i :: 0 <= i < 17 ==> word[i] == 'a'
    ensures |RightToLeft("aaa", "aa", word)| > Reserved(15, |Leftmost("aaa", "aa", word)|)
  {
    assert "aaa"[2..] == "a" && StartsWith("aaa", "aa");
    assert Leftmost("aaa", "aa", word) == word + Leftmost("a", "aa", word);
    var t := "a" + word;
    assert t[..2] == "aa";
    assert "aaa"[..2] == "aa" && "aa"[..1] == "a" && ['a'] + [] == "a" && ['a'] + "a" == "aa";
    assert "aa"[2..] == [] && word + [] == word;
    assert Sweep("aaa", [], "aa", word) == Sweep("aa", "a", "aa", word) == Sweep("a", word, "aa", word);
    assert Sweep("a", word, "aa", word) == Sweep([], word + t[2..], "aa", word);
  }
}
