// Sums over a sequence, for the counters of the concurrent protocols.
module Tally {
  function Total<T>(s: seq<T>, f: T -> int): int {
    if s == [] then 0 else Total(s[..|s| - 1], f) + f(s[|s| - 1])
  }

  lemma TotalPush<T>(s: seq<T>, x: T, f: T -> int)
    ensures Total(s + [x], f) == Total(s, f) + f(x)
  {
    assert (s + [x])[..|s|] == s;
  }

  lemma {:induction false} TotalUpdate<T>(s: seq<T>, i: nat, x: T, f: T -> int)
    requires i < |s|
    ensures Total(s[i := x], f) == Total(s, f) - f(s[i]) + f(x)
  {
    var last := |s| - 1;
    if i == last {
      assert s[i := x][..last] == s[..last];
    } else {
      assert s[i := x][..last] == s[..last][i := x];
      TotalUpdate(s[..last], i, x, f);
    }
  }

  lemma {:induction false} TotalSame<T>(s: seq<T>, t: seq<T>, f: T -> int)
    requires |s| == |t| && forall k | 0 <= k < |s| :: f(s[k]) == f(t[k])
    ensures Total(s, f) == Total(t, f)
  {
    if s != [] {
      TotalSame(s[..|s| - 1], t[..|t| - 1], f);
    }
  }

  lemma {:induction false} TotalZero<T>(s: seq<T>, f: T -> int)
    requires forall k | 0 <= k < |s| :: f(s[k]) == 0
    ensures Total(s, f) == 0
  {
    if s != [] {
      TotalZero(s[..|s| - 1], f);
    }
  }
}
