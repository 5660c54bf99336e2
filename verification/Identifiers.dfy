// Node identifiers (internal/domain/types.go) and the byte-wise order that
// both the tree walk and the integrity validator sort them by.
module Identifiers {
  import opened Octets

  const ID_LENGTH := 16

  type IdBytes = s: Bytes | |s| == ID_LENGTH witness [0, 0, 0, 0, 0, 0, 0, 0, 0, 0, 0, 0, 0, 0, 0, 0]

  /** A 128-bit identifier. The zero value stands for "no parent". */
  datatype ID = ID(bytes: IdBytes)

  const NIL_ID := ID([0, 0, 0, 0, 0, 0, 0, 0, 0, 0, 0, 0, 0, 0, 0, 0])

  predicate IdLess(a: ID, b: ID) {
    LexLess(a.bytes, b.bytes)
  }

  lemma IdOrder(a: ID, b: ID, c: ID)
    ensures !IdLess(a, a)
    ensures IdLess(a, b) || a == b || IdLess(b, a)
    ensures IdLess(a, b) && IdLess(b, c) ==> IdLess(a, c)
    ensures !(IdLess(a, b) && IdLess(b, a))
  {
    LexIrreflexive(a.bytes);
    LexTotal(a.bytes, b.bytes);
    if IdLess(a, b) && IdLess(b, c) {
      LexTransitive(a.bytes, b.bytes, c.bytes);
    }
    if IdLess(a, b) && IdLess(b, a) {
      LexTransitive(a.bytes, b.bytes, a.bytes);
    }
  }
}
