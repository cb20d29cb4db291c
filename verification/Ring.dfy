/** The circular storage of cbuf.cpp as values: what a pair of indices into it denotes, and what moving them does. */
module Ring {
  import opened Common

  /** The bytes from `begin` up to `end`, around the end of the storage when `end` is the smaller. */
  function Between(s: Bytes, begin: nat, end: nat): (r: Bytes)
    requires begin <= |s| && end <= |s|
    ensures |r| == if begin <= end then end - begin else |s| - (begin - end)
  {
    if begin <= end then s[begin..end] else s[begin..] + s[..end]
  }

  /** `wrap_if_bufend` */
  function Wrap(size: nat, at: nat): nat
  {
    if at == size then 0 else at
  }

  lemma BetweenAt(s: Bytes, begin: nat, end: nat, k: nat)
    requires begin <= |s| && end <= |s| && k < |Between(s, begin, end)|
    ensures Between(s, begin, end)[k] == s[if begin + k < |s| then begin + k else begin + k - |s|]
  {
  }

  /** Bytes written at `end` without going around. */
  lemma WriteAhead(s: Bytes, begin: nat, end: nat, xs: Bytes)
    requires begin < |s| && end < |s| && end + |xs| <= |s|
    requires |Between(s, begin, end)| + |xs| < |s|
    ensures Between(Placed(s, end, xs), begin, Wrap(|s|, end + |xs|)) == Between(s, begin, end) + xs
  {
    var s' := Placed(s, end, xs);
    var end' := Wrap(|s|, end + |xs|);
    var was, now := Between(s, begin, end), Between(s', begin, end');
    hide Placed, Between;
    forall k | 0 <= k < |now| ensures now[k] == (was + xs)[k] {
      var at := if begin + k < |s| then begin + k else begin + k - |s|;
      BetweenAt(s', begin, end', k);
      PlacedAt(s, end, xs, at);
      if k < |was| {
        BetweenAt(s, begin, end, k);
      }
    }
  }

  /** Bytes written at `end` up to the end of the storage, the rest from its start. */
  lemma WriteAround(s: Bytes, begin: nat, end: nat, xs: Bytes)
    requires begin <= end < |s| < end + |xs|
    requires |Between(s, begin, end)| + |xs| < |s|
    ensures var top := |s| - end;
      Between(Placed(Placed(s, end, xs[..top]), 0, xs[top..]), begin, |xs| - top) == Between(s, begin, end) + xs
  {
    var top := |s| - end;
    var s1 := Placed(s, end, xs[..top]);
    var s2 := Placed(s1, 0, xs[top..]);
    var was, now := Between(s, begin, end), Between(s2, begin, |xs| - top);
    hide Placed, Between;
    forall k | 0 <= k < |now| ensures now[k] == (was + xs)[k] {
      var at := if begin + k < |s| then begin + k else begin + k - |s|;
      BetweenAt(s2, begin, |xs| - top, k);
      PlacedAt(s1, 0, xs[top..], at);
      PlacedAt(s, end, xs[..top], at);
      if k < |was| {
        BetweenAt(s, begin, end, k);
      }
    }
  }

  /** `n` bytes taken from `begin` without going around. */
  lemma ReadAhead(s: Bytes, begin: nat, end: nat, n: nat)
    requires begin < |s| && end < |s| && n <= |Between(s, begin, end)|
    requires end < begin ==> begin + n <= |s|
    ensures s[begin..begin + n] == Between(s, begin, end)[..n]
    ensures Between(s, Wrap(|s|, begin + n), end) == Between(s, begin, end)[n..]
  {
  }

  /** `n` bytes taken from `begin` up to the end of the storage, the rest from its start. */
  lemma ReadAround(s: Bytes, begin: nat, end: nat, n: nat)
    requires end < begin < |s| < begin + n && n <= |Between(s, begin, end)|
    ensures var top := |s| - begin;
      && s[begin..] + s[..n - top] == Between(s, begin, end)[..n]
      && Between(s, n - top, end) == Between(s, begin, end)[n..]
  {
  }

  lemma PlacedTwice(s: Bytes, xs: Bytes, ys: Bytes)
    requires |xs| + |ys| <= |s|
    ensures Placed(Placed(s, 0, xs), |xs|, ys) == Placed(s, 0, xs + ys)
  {
  }
}
