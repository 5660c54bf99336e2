// Waiting for a login prompt (plugins/protocol-telnet/session.go,
// expectPrompt): a bounded sliding window stands for a search of everything
// read so far.
module Prompt {
  import opened Octets
  import opened Wrappers

  /** What one turn of the loop meets: a cancelled context, the read's byte and error, and a failing mirror write. */
  datatype Turn = Turn(cancelled: bool, got: Option<byte>, readErr: bool, writeErr: bool)

  /** Waiting: the reader has not answered yet. */
  datatype Outcome = Found | Cancelled | ReadFailed | WriteFailed | LimitReached | Waiting

  function LowerByte(b: byte): byte {
    if 'A' as int <= b <= 'Z' as int then b + 32 else b
  }

  function Lower(s: Bytes): (r: Bytes)
    ensures |r| == |s|
  {
    if s == [] then [] else Lower(s[..|s| - 1]) + [LowerByte(s[|s| - 1])]
  }

  /** Exactly the letters A to Z are lowered, each byte where it stands. */
  lemma {:induction false} LowerExactly(s: Bytes, i: nat)
    requires i < |s|
    ensures Lower(s)[i] == if 65 <= s[i] <= 90 then s[i] + 32 else s[i]
  {
    if i < |s| - 1 {
      LowerExactly(s[..|s| - 1], i);
    }
  }

  predicate At(s: Bytes, i: nat, needle: Bytes) {
    i + |needle| <= |s| && s[i..i + |needle|] == needle
  }

  predicate Contains(s: Bytes, needle: Bytes) {
    exists i | 0 <= i <= |s| :: At(s, i, needle)
  }

  /** The bytes read in these turns. */
  function Read(turns: seq<Turn>): Bytes {
    if turns == [] then []
    else
      var last := turns[|turns| - 1];
      Read(turns[..|turns| - 1]) + if last.got.Some? then [last.got.value] else []
  }

  /** After these turns everything read, in lower case, contains the needle, which is in lower case already. */
  predicate Seen(turns: seq<Turn>, needle: Bytes) {
    Read(turns) != [] && Contains(Lower(Read(turns)), needle)
  }

  /** Nothing in these turns ends the wait by failing. */
  predicate Smooth(turns: seq<Turn>, mirror: bool) {
    forall k | 0 <= k < |turns| ::
      !turns[k].cancelled && !turns[k].readErr && !(mirror && turns[k].got.Some? && turns[k].writeErr)
  }

  /** The last min(n, |s|) bytes. */
  function Tail(s: Bytes, n: nat): Bytes {
    if |s| <= n then s else s[|s| - n..]
  }

  lemma LowerPush(s: Bytes, b: byte)
    ensures Lower(s + [b]) == Lower(s) + [LowerByte(b)]
  {
    assert (s + [b])[..|s|] == s;
  }

  lemma ReadPush(turns: seq<Turn>, k: nat)
    requires k < |turns|
    ensures Read(turns[..k + 1]) == Read(turns[..k]) + if turns[k].got.Some? then [turns[k].got.value] else []
  {
    assert turns[..k + 1][..k] == turns[..k];
  }

  /** Sliding the window by one byte. */
  lemma TailPush(s: Bytes, n: nat, c: byte)
    requires n > 0
    ensures Tail(s + [c], n) == (if |Tail(s, n)| == n then Tail(s, n)[1..] else Tail(s, n)) + [c]
  {
  }

  /** The window sees every first occurrence: a needle new to the history ends at its last byte. */
  lemma WindowSuffices(h: Bytes, c: byte, needle: Bytes, n: nat)
    requires |needle| <= n && (h == [] || !Contains(h, needle))
    ensures Contains(Tail(h + [c], n), needle) <==> Contains(h + [c], needle)
  {
    var all, w := h + [c], Tail(h + [c], n);
    var off := |all| - |w|;
    if Contains(w, needle) {
      var i :| 0 <= i <= |w| && At(w, i, needle);
      AtSuffix(all, off, i, needle);
      assert At(all, off + i, needle);
    }
    if Contains(all, needle) {
      var i :| 0 <= i <= |all| && At(all, i, needle);
      if needle == [] {
        assert At(w, 0, needle);
      } else {
        AtPrefix(h, c, i, needle);
        AtSuffix(all, off, i - off, needle);
        assert At(w, i - off, needle);
      }
    }
  }

  lemma AtSuffix(s: Bytes, off: nat, i: nat, needle: Bytes)
    requires off <= |s|
    ensures At(s[off..], i, needle) <==> At(s, off + i, needle)
  {
    if i + |needle| <= |s| - off {
      assert s[off..][i..i + |needle|] == s[off + i..off + i + |needle|];
    }
  }

  /** An occurrence that does not reach the last byte was there before. */
  lemma AtPrefix(h: Bytes, c: byte, i: nat, needle: Bytes)
    requires At(h + [c], i, needle) && needle != [] && (h == [] || !Contains(h, needle))
    ensures i + |needle| == |h| + 1
  {
    if i + |needle| <= |h| {
      assert h[i..i + |needle|] == (h + [c])[i..i + |needle|];
      assert At(h, i, needle);
    }
  }

  /** The first moment the needle has been seen. */
  predicate FirstSeen(turns: seq<Turn>, needle: Bytes, k: nat) {
    && 0 < k <= |turns|
    && Seen(turns[..k], needle)
    && forall j | 0 <= j < k :: !Seen(turns[..j], needle)
  }

  /** Everything before the k-th byte went well, that byte was within the limit, and it could be mirrored. */
  predicate Reaches(turns: seq<Turn>, limit: int, mirror: bool, k: nat)
    requires 0 < k <= |turns|
  {
    && Smooth(turns[..k - 1], mirror) && |Read(turns[..k - 1])| < limit
    && !turns[k - 1].cancelled && !(mirror && turns[k - 1].got.Some? && turns[k - 1].writeErr)
  }

  /** What an unbounded search of everything read would report. */
  predicate Verdict(turns: seq<Turn>, needle: Bytes, limit: int, mirror: bool, outcome: Outcome, used: nat) {
    && used <= |turns|
    && (forall k | 0 <= k < used :: !Seen(turns[..k], needle))
    && (used > 0 ==> Smooth(turns[..used - 1], mirror) && |Read(turns[..used - 1])| < limit)
    && (outcome in {LimitReached, Waiting, Cancelled} ==> Smooth(turns[..used], mirror))
    && (outcome !in {Found, WriteFailed} ==> !Seen(turns[..used], needle))
    && match outcome
       case Found => used > 0 && Seen(turns[..used], needle) && Reaches(turns, limit, mirror, used)
       case LimitReached => |Read(turns[..used])| >= limit
       case Waiting => used == |turns| && |Read(turns)| < limit
       case Cancelled => used < |turns| && turns[used].cancelled && |Read(turns[..used])| < limit
       case ReadFailed => used > 0 && Reaches(turns, limit, mirror, used) && turns[used - 1].readErr
       case WriteFailed =>
         used > 0 && !turns[used - 1].cancelled && mirror && turns[used - 1].got.Some? && turns[used - 1].writeErr
  }

  lemma {:induction false} ReadGrows(turns: seq<Turn>, j: nat, k: nat)
    requires j <= k <= |turns|
    ensures |Read(turns[..j])| <= |Read(turns[..k])|
  {
    if j < k {
      ReadGrows(turns, j, k - 1);
      ReadPush(turns, k - 1);
    }
  }

  /**
   * The needle is found exactly when some byte completes it for the first time and that byte is reached: read within
   * the limit, with nothing failing before it.
   */
  lemma FoundExactly(turns: seq<Turn>, needle: Bytes, limit: int, mirror: bool, outcome: Outcome, used: nat)
    requires Verdict(turns, needle, limit, mirror, outcome, used)
    ensures outcome == Found ==>
              FirstSeen(turns, needle, used) && Reaches(turns, limit, mirror, used)
    ensures forall k: nat | FirstSeen(turns, needle, k) && Reaches(turns, limit, mirror, k) ::
              outcome == Found && used == k
  {
    forall k: nat | FirstSeen(turns, needle, k) && Reaches(turns, limit, mirror, k)
      ensures outcome == Found && used == k
    {
      hide Seen, Read, Smooth;
      NotEarlier(turns, needle, limit, mirror, outcome, used, k);
    }
  }

  /** Nothing ends the wait before the byte that completes the needle. */
  lemma NotEarlier(turns: seq<Turn>, needle: Bytes, limit: int, mirror: bool, outcome: Outcome, used: nat, k: nat)
    requires Verdict(turns, needle, limit, mirror, outcome, used)
    requires FirstSeen(turns, needle, k) && Reaches(turns, limit, mirror, k)
    ensures used == k
  {
    hide Seen, Read, Smooth;
    if used < k {
      ReadGrows(turns, used, k - 1);
      SmoothAt(turns, k - 1, mirror, used);
      SmoothAt(turns, k - 1, mirror, used - 1);
    }
  }

  lemma SmoothAt(turns: seq<Turn>, n: nat, mirror: bool, k: int)
    requires n <= |turns|
    ensures Smooth(turns[..n], mirror) && 0 <= k < n ==>
              !turns[k].cancelled && !turns[k].readErr && !(mirror && turns[k].got.Some? && turns[k].writeErr)
  {
    if 0 <= k < n {
      assert turns[..n][k] == turns[k];
    }
  }

  /** The search is still open after `used` turns. */
  predicate Open(turns: seq<Turn>, needle: Bytes, limit: int, mirror: bool, used: nat) {
    && used <= |turns|
    && (forall k | 0 <= k <= used :: !Seen(turns[..k], needle))
    && Smooth(turns[..used], mirror)
    && (used > 0 ==> |Read(turns[..used - 1])| < limit)
  }

  lemma OpenAtFirst(turns: seq<Turn>, needle: Bytes, limit: int, mirror: bool)
    ensures Open(turns, needle, limit, mirror, 0)
  {
    assert turns[..0] == [];
  }

  lemma EndsBetweenTurns(turns: seq<Turn>, needle: Bytes, limit: int, mirror: bool, outcome: Outcome, k: nat)
    requires Open(turns, needle, limit, mirror, k)
    requires match outcome
             case Waiting => k == |turns| && |Read(turns[..k])| < limit
             case Cancelled => k < |turns| && turns[k].cancelled && |Read(turns[..k])| < limit
             case LimitReached => |Read(turns[..k])| >= limit
             case _ => false
    ensures Verdict(turns, needle, limit, mirror, outcome, k)
  {
    hide Seen, Read;
    assert turns[..|turns|] == turns;
    if k > 0 {
      assert turns[..k][..k - 1] == turns[..k - 1];
    }
  }

  /** The next turn, within the limit, either goes on, fails, or shows the needle. */
  lemma TurnTaken(turns: seq<Turn>, needle: Bytes, limit: int, mirror: bool, k: nat)
    requires Open(turns, needle, limit, mirror, k) && k < |turns| && |Read(turns[..k])| < limit && !turns[k].cancelled
    ensures var t, seen := turns[k], Seen(turns[..k + 1], needle);
            if mirror && t.got.Some? && t.writeErr then Verdict(turns, needle, limit, mirror, WriteFailed, k + 1)
            else if seen then Verdict(turns, needle, limit, mirror, Found, k + 1)
            else if t.readErr then Verdict(turns, needle, limit, mirror, ReadFailed, k + 1)
            else Open(turns, needle, limit, mirror, k + 1)
  {
    hide Seen, Read;
    assert turns[..k + 1][..k] == turns[..k];
  }

  /** The window after one more byte, and what it tells. */
  lemma WindowStep(turns: seq<Turn>, needle: Bytes, k: nat, n: nat)
    requires k < |turns| && turns[k].got.Some? && !Seen(turns[..k], needle) && 0 < n && |needle| <= n
    ensures var w, c := Tail(Lower(Read(turns[..k])), n), LowerByte(turns[k].got.value);
            var w' := (if |w| == n then w[1..] else w) + [c];
            && w' == Tail(Lower(Read(turns[..k + 1])), n)
            && (Contains(w', needle) <==> Seen(turns[..k + 1], needle))
  {
    hide Contains, Tail, Lower, Read;
    var h, b := Read(turns[..k]), turns[k].got.value;
    ReadPush(turns, k);
    LowerPush(h, b);
    TailPush(Lower(h), n, LowerByte(b));
    WindowSuffices(Lower(h), LowerByte(b), needle, n);
  }

  lemma NothingRead(turns: seq<Turn>, needle: Bytes, k: nat)
    requires k < |turns| && turns[k].got.None?
    ensures Read(turns[..k + 1]) == Read(turns[..k]) && Seen(turns[..k + 1], needle) == Seen(turns[..k], needle)
  {
    hide Contains, Lower;
    ReadPush(turns, k);
  }

  /**
   * Reads one byte per turn, mirrors it, and reports Found as soon as the needle has appeared. `needle` is the one
   * that strings.ToLower returned. `used` turns were taken; the result is that of an unbounded search of everything
   * read.
   */
  method ExpectPrompt(turns: seq<Turn>, needle: Bytes, limit: int, mirror: bool)
    returns (outcome: Outcome, used: nat, mirrored: Bytes)
    ensures Verdict(turns, needle, limit, mirror, outcome, used)
    ensures mirrored == if !mirror then []
                        else Read(turns[..if outcome == WriteFailed then used - 1 else used])
  {
    hide *;
    var windowCap := 2 * |needle|;
    if windowCap < 64 {
      windowCap := 64;
    }
    var window: Bytes := [];
    var scanned := 0;
    used, mirrored := 0, [];
    OpenAtFirst(turns, needle, limit, mirror);
    StartingWindow(turns, windowCap);
    while scanned < limit
      invariant 0 <= used <= |turns| && scanned == |Read(turns[..used])|
      invariant window == Tail(Lower(Read(turns[..used])), windowCap)
      invariant Open(turns, needle, limit, mirror, used)
      invariant mirrored == if mirror then Read(turns[..used]) else []
      decreases |turns| - used
    {
      if used == |turns| {
        EndsBetweenTurns(turns, needle, limit, mirror, Waiting, used);
        return Waiting, used, mirrored;
      }
      var turn := turns[used];
      if turn.cancelled {
        EndsBetweenTurns(turns, needle, limit, mirror, Cancelled, used);
        return Cancelled, used, mirrored;
      }
      TurnTaken(turns, needle, limit, mirror, used);
      NotSeenYet(turns, needle, limit, mirror, used);
      used := used + 1;
      if turn.got.Some? {
        ReadPush(turns, used - 1);
        scanned := scanned + 1;
        if mirror {
          if turn.writeErr {
            return WriteFailed, used, mirrored;
          }
          mirrored := mirrored + [turn.got.value];
        }
        WindowStep(turns, needle, used - 1, windowCap);
        LowerByteMeans(turn.got.value);
        var c := turn.got.value;
        if 'A' as int <= c <= 'Z' as int {
          c := c + 32;
        }
        if |window| == windowCap {
          window := window[1..];
        }
        window := window + [c];
        if Contains(window, needle) {
          return Found, used, mirrored;
        }
      } else {
        NothingRead(turns, needle, used - 1);
      }
      if turn.readErr {
        return ReadFailed, used, mirrored;
      }
    }
    EndsBetweenTurns(turns, needle, limit, mirror, LimitReached, used);
    return LimitReached, used, mirrored;
  }

  lemma StartingWindow(turns: seq<Turn>, n: nat)
    ensures Read(turns[..0]) == [] && Tail(Lower(Read(turns[..0])), n) == []
  {
  }

  lemma NotSeenYet(turns: seq<Turn>, needle: Bytes, limit: int, mirror: bool, used: nat)
    requires Open(turns, needle, limit, mirror, used)
    ensures !Seen(turns[..used], needle)
  {
  }

  lemma LowerByteMeans(b: byte)
    ensures LowerByte(b) == if 'A' as int <= b <= 'Z' as int then b + 32 else b
  {
  }
}
