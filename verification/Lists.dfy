// The one list edit that several components make.
module Lists {
  /** s without the first x. */
  function RemoveFirst<T(==)>(s: seq<T>, x: T): seq<T> {
    if s == [] then []
    else if s[0] == x then s[1..]
    else [s[0]] + RemoveFirst(s[1..], x)
  }

  /** Only the first x goes, and everything else stays in its order. */
  lemma {:induction false} RemoveFirstExactly<T>(s: seq<T>, x: T) returns (i: nat)
    ensures i <= |s| && x !in s[..i]
    ensures if i == |s| then RemoveFirst(s, x) == s else s[i] == x && RemoveFirst(s, x) == s[..i] + s[i + 1..]
  {
    if s == [] || s[0] == x {
      i := 0;
    } else {
      var j := RemoveFirstExactly(s[1..], x);
      i := j + 1;
      assert s[..i] == [s[0]] + s[1..][..j];
      if i < |s| {
        assert s[i + 1..] == s[1..][j + 1..];
        Reassociate(s[0], s[1..][..j], s[i + 1..]);
      }
    }
  }

  lemma {:induction false} RemoveFirstConcat<T>(s: seq<T>, t: seq<T>, x: T)
    ensures RemoveFirst(s + t, x) == if x in s then RemoveFirst(s, x) + t else s + RemoveFirst(t, x)
  {
    if s == [] {
      assert s + t == t && s + RemoveFirst(t, x) == RemoveFirst(t, x);
    } else if s[0] == x {
      assert (s + t)[1..] == s[1..] + t;
    } else {
      assert (s + t)[1..] == s[1..] + t;
      assert x in s <==> x in s[1..];
      RemoveFirstConcat(s[1..], t, x);
      Reassociate(s[0], RemoveFirst(s[1..], x), t);
      Reassociate(s[0], s[1..], RemoveFirst(t, x));
      assert [s[0]] + s[1..] == s;
    }
  }

  lemma Reassociate<T>(first: T, a: seq<T>, b: seq<T>)
    ensures [first] + (a + b) == [first] + a + b
  {
  }
}
