/** C string helpers of the MQTT code: `strsep`, and the whitespace trimming of flatmap.c. */
module Text {
  import opened Common

  // ----- strsep ------------------------------------------------------------------------------------

  /** The index of the first delimiter, or the length. */
  function Break(s: string, delims: string): (i: nat)
    ensures i <= |s| && (i < |s| ==> s[i] in delims)
    ensures forall j :: 0 <= j < i ==> s[j] !in delims
  {
    if s == [] || s[0] in delims then 0 else 1 + Break(s[1..], delims)
  }

  /** The token taken, and the cursor left; a null cursor is `None`. */
  datatype Taken = Taken(token: Option<string>, rest: Option<string>)

  function Strsep(cursor: Option<string>, delims: string): Taken
  {
    if cursor.None? then Taken(None, None) else
      var s := cursor.value;
      var i := Break(s, delims);
      if i == |s| then Taken(Some(s), None) else Taken(Some(s[..i]), Some(s[i + 1..]))
  }

  /** How much text a cursor still has; each `strsep` on a live cursor makes it less. */
  function Left(cursor: Option<string>): nat
  {
    if cursor.None? then 0 else |cursor.value| + 1
  }

  /** Every token from the cursor on. */
  function Split(cursor: Option<string>, delims: string): seq<string>
    decreases Left(cursor)
  {
    if cursor.None? then [] else
      var t := Strsep(cursor, delims);
      [t.token.value] + Split(t.rest, delims)
  }

  function Join(parts: seq<string>, delim: char): string
  {
    if parts == [] then [] else if |parts| == 1 then parts[0] else parts[0] + [delim] + Join(parts[1..], delim)
  }

  lemma {:induction false} BreakAt(a: string, b: string, delims: string)
    requires forall j :: 0 <= j < |a| ==> a[j] !in delims
    requires b != [] ==> b[0] in delims
    ensures Break(a + b, delims) == |a|
  {
    if a == [] {
      assert a + b == b;
    } else {
      assert (a + b)[0] == a[0] && (a + b)[1..] == a[1..] + b;
      BreakAt(a[1..], b, delims);
    }
  }

  lemma StrsepAt(a: string, c: char, b: string, delims: string)
    requires forall j :: 0 <= j < |a| ==> a[j] !in delims
    requires c in delims
    ensures Strsep(Some(a + [c] + b), delims) == Taken(Some(a), Some(b))
  {
    assert a + [c] + b == a + ([c] + b);
    BreakAt(a, [c] + b, delims);
    assert (a + [c] + b)[..|a|] == a && (a + [c] + b)[|a| + 1..] == b;
  }

  lemma StrsepWhole(a: string, delims: string)
    requires forall j :: 0 <= j < |a| ==> a[j] !in delims
    ensures Strsep(Some(a), delims) == Taken(Some(a), None)
  {
    assert a + [] == a;
    BreakAt(a, [], delims);
  }

  /** Splitting undoes joining, for parts without delimiters. */
  lemma {:induction false} SplitJoin(parts: seq<string>, delim: char, delims: string)
    requires parts != [] && delim in delims
    requires forall i, j :: 0 <= i < |parts| && 0 <= j < |parts[i]| ==> parts[i][j] !in delims
    ensures Split(Some(Join(parts, delim)), delims) == parts
  {
    if |parts| == 1 {
      StrsepWhole(parts[0], delims);
    } else {
      var tail := parts[1..];
      forall i, j | 0 <= i < |tail| && 0 <= j < |tail[i]| ensures tail[i][j] !in delims {
        assert tail[i] == parts[i + 1];
      }
      StrsepAt(parts[0], delim, Join(tail, delim), delims);
      SplitJoin(tail, delim, delims);
    }
  }

  // ----- Trimming ------------------------------------------------------------------------------------

  /** `isspace` in the C locale. */
  predicate IsSpace(c: char)
  {
    c == ' ' || '\t' <= c <= '\r'
  }

  predicate HasText(s: string)
  {
    exists i :: 0 <= i < |s| && !IsSpace(s[i])
  }

  function TrimLeft(s: string): (r: string)
    ensures |r| <= |s| && r == s[|s| - |r|..]
    ensures r != [] ==> !IsSpace(r[0])
    ensures forall i :: 0 <= i < |s| - |r| ==> IsSpace(s[i])
  {
    if s != [] && IsSpace(s[0]) then TrimLeft(s[1..]) else s
  }

  function TrimRight(s: string): (r: string)
    ensures |r| <= |s| && r == s[..|r|]
    ensures r != [] ==> !IsSpace(r[|r| - 1])
    ensures forall i :: |r| <= i < |s| ==> IsSpace(s[i])
  {
    if s != [] && IsSpace(s[|s| - 1]) then TrimRight(s[..|s| - 1]) else s
  }

  function Trim(s: string): string
  {
    TrimRight(TrimLeft(s))
  }

  predicate Trimmed(s: string)
  {
    s != [] && !IsSpace(s[0]) && !IsSpace(s[|s| - 1])
  }

  lemma TrimTrims(s: string)
    requires HasText(s)
    ensures Trimmed(Trim(s))
  {
    hide TrimLeft, TrimRight;
    var l := TrimLeft(s);
    var i :| 0 <= i < |s| && !IsSpace(s[i]);
    assert l[i - (|s| - |l|)] == s[i];
    var r := TrimRight(l);
    assert r[0] == l[0];
  }

  lemma TrimmedIsFixed(s: string)
    requires Trimmed(s)
    ensures Trim(s) == s && HasText(s)
  {
    assert !IsSpace(s[0]);
  }

  lemma {:induction false} TrimLeftOfPadded(left: string, s: string)
    requires s != [] && !IsSpace(s[0])
    requires forall i :: 0 <= i < |left| ==> IsSpace(left[i])
    ensures TrimLeft(left + s) == s
  {
    if left == [] {
      assert left + s == s;
    } else {
      assert (left + s)[0] == left[0] && (left + s)[1..] == left[1..] + s;
      TrimLeftOfPadded(left[1..], s);
    }
  }

  lemma {:induction false} TrimRightOfPadded(s: string, right: string)
    requires s != [] && !IsSpace(s[|s| - 1])
    requires forall i :: 0 <= i < |right| ==> IsSpace(right[i])
    ensures TrimRight(s + right) == s
    decreases |right|
  {
    if right == [] {
      assert s + right == s;
    } else {
      var last := |right| - 1;
      assert (s + right)[|s + right| - 1] == right[last] && (s + right)[..|s + right| - 1] == s + right[..last];
      TrimRightOfPadded(s, right[..last]);
    }
  }

  /** Trimming removes spaces around the text and nothing else, whatever is between them. */
  lemma TrimOfPadded(left: string, s: string, right: string)
    requires Trimmed(s)
    requires forall i :: 0 <= i < |left| ==> IsSpace(left[i])
    requires forall i :: 0 <= i < |right| ==> IsSpace(right[i])
    ensures Trim(left + s + right) == s
  {
    hide TrimLeft, TrimRight;
    assert left + s + right == left + (s + right);
    TrimLeftOfPadded(left, s + right);
    TrimRightOfPadded(s, right);
  }

  /** The first loop of `trimWhitespace`. */
  method DropLeading(a: array<char>, len: nat) returns (j: nat)
    requires len < a.Length && a[len] == NUL && HasText(a[..len])
    modifies a
    ensures j <= len && a[..j] == TrimLeft(old(a[..len])) && a[j] == NUL
  {
    hide TrimLeft, HasText;
    ghost var s := a[..len];
    ghost var l := TrimLeft(s);
    ghost var cut := |s| - |l|;
    LeftEdge(s);
    var leadingSpace := true;
    j := 0;
    for i := 0 to len
      invariant j <= i && a[len] == NUL
      invariant forall k :: i <= k < len ==> a[k] == s[k]
      invariant leadingSpace <==> i <= cut
      invariant j == if leadingSpace then 0 else i - cut
      invariant forall k :: 0 <= k < j ==> a[k] == s[cut + k]
    {
      var c := a[i];
      if !IsSpace(c) || !leadingSpace {
        leadingSpace := false;
        a[j] := c;
        j := j + 1;
      }
    }
    a[j] := NUL;
    assert |a[..j]| == |l| && forall k :: 0 <= k < j ==> a[..j][k] == s[cut..][k];
  }

  /** The second loop of `trimWhitespace`. */
  method DropTrailing(a: array<char>, len: nat) returns (n: nat)
    requires 0 < len < a.Length && a[len] == NUL && !IsSpace(a[0])
    modifies a
    ensures n <= len && a[..n] == TrimRight(old(a[..len])) && a[n] == NUL
  {
    hide TrimRight;
    ghost var l := a[..len];
    n := len;
    while IsSpace(a[n - 1])
      invariant 0 < n <= len && a[n] == NUL
      invariant forall k :: 0 <= k < n ==> a[k] == l[k]
      invariant TrimRight(l[..n]) == TrimRight(l)
      decreases n
    {
      TrimRightStep(l, n);
      assert n > 1;
      a[n - 1] := NUL;
      n := n - 1;
    }
    TrimRightStep(l, n);
    assert a[..n] == l[..n];
  }

  lemma TrimRightStep(l: string, n: nat)
    requires 0 < n <= |l|
    ensures TrimRight(l[..n]) == if IsSpace(l[n - 1]) then TrimRight(l[..n - 1]) else l[..n]
  {
    assert l[..n][..n - 1] == l[..n - 1];
  }

  /** `trimWhitespace`: trim the string of length `len` in its own array, which keeps its terminator. */
  method TrimWhitespace(a: array<char>, len: nat) returns (n: nat)
    requires len < a.Length && a[len] == NUL && HasText(a[..len])
    modifies a
    ensures n <= len && a[..n] == Trim(old(a[..len])) && a[n] == '\0'
  {
    hide TrimLeft, TrimRight, HasText;
    LeftEdge(a[..len]);
    var j := DropLeading(a, len);
    assert a[0] == a[..j][0];
    n := DropTrailing(a, j);
  }

  /** Text has a first character that is not a space. */
  lemma LeftEdge(s: string)
    requires HasText(s)
    ensures var l := TrimLeft(s); var cut := |s| - |l|;
            && l != [] && !IsSpace(l[0]) && cut < |s| && !IsSpace(s[cut]) && l == s[cut..]
            && forall i :: 0 <= i < cut ==> IsSpace(s[i])
  {
    var l := TrimLeft(s);
    var i :| 0 <= i < |s| && !IsSpace(s[i]);
    assert l[0] == s[|s| - |l|];
  }

  /** The six spaces of the C locale: tab to carriage return, and the blank. */
  lemma Spaces(c: char)
    ensures IsSpace(c) <==> c as int in {9, 10, 11, 12, 13, 32}
  {
  }
}
