// Bytes and byte strings, shared by the identifiers, the wire formats and the
// terminal protocols.
module Octets {
  type byte = x: int | 0 <= x < 256

  type Bytes = seq<byte>

  /** One byte string after another. */
  function Joined(chunks: seq<Bytes>): Bytes {
    if chunks == [] then [] else Joined(chunks[..|chunks| - 1]) + chunks[|chunks| - 1]
  }

  /** Lexicographic order on byte strings: Go's `<` on strings and `bytes.Compare(a, b) < 0`. */
  predicate LexLess(a: Bytes, b: Bytes) {
    if b == [] then false
    else if a == [] then true
    else if a[0] != b[0] then a[0] < b[0]
    else LexLess(a[1..], b[1..])
  }

  lemma {:induction false} LexIrreflexive(a: Bytes)
    ensures !LexLess(a, a)
  {
    if a != [] {
      LexIrreflexive(a[1..]);
    }
  }

  lemma {:induction false} LexTransitive(a: Bytes, b: Bytes, c: Bytes)
    requires LexLess(a, b) && LexLess(b, c)
    ensures LexLess(a, c)
  {
    if a != [] && a[0] == b[0] && b[0] == c[0] {
      LexTransitive(a[1..], b[1..], c[1..]);
    }
  }

  lemma {:induction false} LexTotal(a: Bytes, b: Bytes)
    ensures LexLess(a, b) || a == b || LexLess(b, a)
  {
    if a != [] && b != [] && a[0] == b[0] {
      LexTotal(a[1..], b[1..]);
      assert a == [a[0]] + a[1..] && b == [b[0]] + b[1..];
    }
  }

  /** Where two byte strings first differ decides the order. */
  lemma {:induction false} LexAtDifference(a: Bytes, b: Bytes, i: nat)
    requires i < |a| && i < |b| && a[..i] == b[..i] && a[i] != b[i]
    ensures LexLess(a, b) == (a[i] < b[i])
  {
    if i > 0 {
      assert a[0] == a[..i][0] && b[0] == b[..i][0];
      assert a[1..][..i - 1] == a[..i][1..] && b[1..][..i - 1] == b[..i][1..];
      LexAtDifference(a[1..], b[1..], i - 1);
    }
  }

  /** The order in full: the first difference decides, and a proper prefix comes first. */
  lemma {:induction false} LexExactly(a: Bytes, b: Bytes)
    ensures LexLess(a, b) <==> a < b || exists i :: FirstLess(a, b, i)
  {
    if a < b {
      LexPrefix(a, b);
    } else if i :| FirstLess(a, b, i) {
      LexAtDifference(a, b, i);
    } else if a != b {
      var i := FirstDifference(a, b);
      if i < |a| && i < |b| {
        LexAtDifference(a, b, i);
        assert FirstLess(a, b, i) <==> a[i] < b[i];
      } else {
        assert b < a;
        LexPrefix(b, a);
        if LexLess(a, b) {
          LexTransitive(a, b, a);
          LexIrreflexive(a);
        }
      }
    } else {
      LexIrreflexive(a);
    }
  }

  ghost predicate FirstLess(a: Bytes, b: Bytes, i: int) {
    0 <= i < |a| && i < |b| && a[..i] == b[..i] && a[i] < b[i]
  }

  lemma {:induction false} LexPrefix(a: Bytes, b: Bytes)
    requires a < b
    ensures LexLess(a, b)
  {
    if a != [] {
      assert a[0] == b[..|a|][0] == b[0] && a[1..] == b[..|a|][1..] == b[1..][..|a| - 1];
      LexPrefix(a[1..], b[1..]);
    }
  }

  lemma {:induction false} FirstDifference(a: Bytes, b: Bytes) returns (i: nat)
    ensures i <= |a| && i <= |b| && a[..i] == b[..i]
    ensures i < |a| && i < |b| ==> a[i] != b[i]
  {
    i := 0;
    while i < |a| && i < |b| && a[i] == b[i]
      invariant i <= |a| && i <= |b| && a[..i] == b[..i]
    {
      i := i + 1;
    }
  }
}
