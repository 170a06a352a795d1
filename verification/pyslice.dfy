/**
  Python's slice-bound arithmetic. A bound may be negative (it then counts
  from the end) or lie outside the sequence (it is then clamped), so
  `s[:k]` and `s[-n:]` never fail, and `s[-0:]` is the whole of `s`.
 */
module PySlice {

  /** Resolves a slice bound `i` against a sequence of length `n`. */
  function Bound(i: int, n: nat): (j: nat)
    ensures j <= n
    ensures 0 <= i <= n ==> j == i
    ensures -(n as int) <= i < 0 ==> j == n + i
    ensures i > n ==> j == n
    ensures i < -(n as int) ==> j == 0
  {
    if i < 0 then (if i + n < 0 then 0 else i + n)
    else if i > n then n
    else i
  }

  /** `s[:stop]` */
  function Take<T>(s: seq<T>, stop: int): (r: seq<T>)
    ensures |r| <= |s| && r == s[..|r|]
    ensures 0 <= stop ==> |r| == if stop < |s| then stop else |s|
    ensures stop < 0 ==> |r| == if |s| + stop < 0 then 0 else |s| + stop
  {
    s[..Bound(stop, |s|)]
  }

  /** `s[start:]` */
  function Drop<T>(s: seq<T>, start: int): (r: seq<T>)
    ensures |r| <= |s| && r == s[|s| - |r|..]
  {
    s[Bound(start, |s|)..]
  }

  /**
    `s[-n:]`: the last `n` elements for `n > 0`, the whole of `s` for
    `n == 0`, and `s` without its first `-n` elements for `n < 0`.
   */
  function Tail<T>(s: seq<T>, n: int): (r: seq<T>)
    ensures |r| <= |s| && r == s[|s| - |r|..]
    ensures n == 0 ==> r == s
    ensures n > 0 ==> |r| == if n < |s| then n else |s|
    ensures n < 0 ==> |r| == if -n < |s| then |s| + n else 0
  {
    Drop(s, -n)
  }

  /** The last `n` elements of `s` (all of `s` when it is shorter). */
  function LastN<T>(s: seq<T>, n: nat): (r: seq<T>)
    ensures |r| == if |s| < n then |s| else n
    ensures r == s[|s| - |r|..]
  {
    if |s| <= n then s else s[|s| - n..]
  }

  /**
    A retention bound: once `s` is longer than `bound` it becomes
    `s[-bound:]`, so a bound of `0` keeps everything.
   */
  function KeepLast<T>(s: seq<T>, bound: int): (r: seq<T>)
    ensures bound == 0 ==> r == s
    ensures bound > 0 ==> r == LastN(s, bound as nat)
    ensures bound < 0 ==> r == s[if -bound < |s| then -bound else |s|..]
  {
    if |s| > bound then Tail(s, bound) else s
  }

  /** Taking the last `n` of a long-enough suffix is taking the last `n` of the whole. */
  lemma LastNOfSuffix<T>(s: seq<T>, t: seq<T>, n: nat)
    requires |t| <= |s| && t == s[|s| - |t|..]
    requires |t| >= n || t == s
    ensures LastN(t, n) == LastN(s, n)
  {
  }

  /** Trimming to the last `n` before appending more changes nothing once the result is trimmed again. */
  lemma LastNAbsorbs<T>(a: seq<T>, b: seq<T>, n: nat)
    requires n > 0
    ensures LastN(LastN(a, n) + b, n) == LastN(a + b, n)
  {
    var t := LastN(a, n) + b;
    assert t == (a + b)[|a + b| - |t|..];
    LastNOfSuffix(a + b, t, n);
  }

  lemma LastNStep<T>(h: seq<T>, m: T, rest: seq<T>, n: nat)
    requires n > 0
    ensures LastN(LastN(h + [m], n) + rest, n) == LastN(h + ([m] + rest), n)
  {
    LastNAbsorbs(h + [m], rest, n);
    assert (h + [m]) + rest == h + ([m] + rest);
  }
}
