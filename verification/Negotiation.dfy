// Negotiator (plugins/protocol-telnet/negotiate.go): the connection wrapper
// that filters what is read and escapes what is written. The connection is a
// script of arrivals and a record of what was sent; a write may stop early.
module Negotiation {
  import opened Octets
  import opened Wrappers
  import opened Telnet

  /** One result of conn.Read: some bytes, possibly together with an error. */
  datatype Arrival = Arrival(data: Bytes, err: bool)

  function Stream(arrivals: seq<Arrival>): Bytes {
    if arrivals == [] then [] else arrivals[0].data + Stream(arrivals[1..])
  }

  function Weight(arrivals: seq<Arrival>): nat {
    if arrivals == [] then 0 else 1 + |arrivals[0].data| + Weight(arrivals[1..])
  }

  class Conn {
    var arrivals: seq<Arrival>
    var sent: Bytes

    constructor (arrivals: seq<Arrival>)
      ensures this.arrivals == arrivals && sent == []
    {
      this.arrivals := arrivals;
      sent := [];
    }

    /** Delivers at most max bytes; when nothing will ever arrive again it reports an error. */
    method Read(max: nat) returns (data: Bytes, err: bool)
      requires max > 0
      modifies `arrivals
      ensures |data| <= max && Stream(old(arrivals)) == data + Stream(arrivals)
      ensures !err ==> Weight(arrivals) < Weight(old(arrivals))
    {
      if arrivals == [] {
        return [], true;
      }
      var head := arrivals[0];
      if |head.data| > max {
        data, err := head.data[..max], false;
        arrivals := [head.(data := head.data[max..])] + arrivals[1..];
        assert arrivals[1..] == old(arrivals)[1..];
        assert head.data == data + arrivals[0].data;
      } else {
        data, err := head.data, head.err;
        arrivals := arrivals[1..];
      }
    }

    /** Sends a non-empty part of p, or fails after sending some of it. */
    method Write(p: Bytes) returns (nw: nat, failed: bool)
      requires p != []
      modifies `sent
      ensures nw <= |p| && (!failed ==> nw > 0) && sent == old(sent) + p[..nw]
    {
      assert 0 <= |p|;
      nw :| nw <= |p|;
      failed :| nw == 0 ==> failed;
      sent := sent + p[..nw];
    }
  }

  class Negotiator {
    const conn: Conn
    const state: NegState

    constructor (conn: Conn, termType: Bytes, cols: int, rows: int)
      ensures this.conn == conn && fresh(state)
      ensures state.Settings() == Config(if termType == [] then [120, 116, 101, 114, 109] else termType, cols, rows)
      ensures state.Position() == Scan(Normal, 0, [])
    {
      this.conn := conn;
      state := new NegState(if termType == [] then XTERM else termType, cols, rows);
    }

    /**
     * Reads until there is application data or an error. Whatever was taken from the connection went through the
     * machine exactly once: p holds its data and the peer got its replies, all of them unless an error is reported.
     */
    method Read(p: array<byte>) returns (n: nat, err: bool, ghost consumed: Bytes, ghost replies: Bytes)
      modifies state`mode, state`sbOpt, state`sbBuf, conn, p
      ensures n <= p.Length && (p.Length > 0 ==> n > 0 || err)
      ensures p.Length == 0 ==> n == 0 && !err && consumed == []
      ensures Stream(old(conn.arrivals)) == consumed + Stream(conn.arrivals)
      ensures Fed(state.Position(), p[..n], replies) == Run(state.Settings(), old(state.Position()), consumed)
      ensures !err ==> conn.sent == old(conn.sent) + replies
      ensures conn.sent <= old(conn.sent) + replies
    {
      hide Run, Stream, Weight;
      n, err, consumed, replies := 0, false, [], [];
      RunNothing(state.Settings(), state.Position());
      if p.Length == 0 {
        return;
      }
      while true
        invariant n == 0 && !err
        invariant state.Settings() == old(state.Settings())
        invariant Stream(old(conn.arrivals)) == consumed + Stream(conn.arrivals)
        invariant Fed(state.Position(), [], replies) == Run(state.Settings(), old(state.Position()), consumed)
        invariant conn.sent == old(conn.sent) + replies
        decreases Weight(conn.arrivals)
      {
        var data: Bytes;
        data, err := conn.Read(p.Length);
        var reply: Bytes := [];
        RunNothing(state.Settings(), state.Position());
        if |data| > 0 {
          RunConcat(state.Settings(), old(state.Position()), consumed, data);
          n, reply := state.Feed(data, p);
        } else {
          assert consumed + data == consumed;
        }
        assert [] + p[..n] == p[..n];
        assert replies + [] == replies;
        consumed, replies := consumed + data, replies + reply;
        if |reply| > 0 {
          var failed := WriteRaw(reply);
          if failed && !err {
            err := true;
          }
        }
        if n > 0 || err {
          return;
        }
      }
    }

    /** Sends p with every 255 doubled; the count is the caller's, not the wire's. */
    method Write(p: Bytes) returns (n: nat, err: bool)
      modifies conn`sent
      ensures !err ==> n == |p| && conn.sent == old(conn.sent) + Escape(p)
      ensures err ==> n == 0 && conn.sent <= old(conn.sent) + Escape(p)
      ensures TooLarge(p) ==> err && conn.sent == old(conn.sent)
    {
      hide Escape;
      var escaped := EscapeIAC(p);
      if escaped == None {
        return 0, true;
      }
      var failed := WriteRaw(escaped.value);
      if failed {
        return 0, true;
      }
      return |p|, false;
    }

    /** Sends all of p, as many writes as it takes. */
    method WriteRaw(p: Bytes) returns (failed: bool)
      modifies conn`sent
      ensures !failed ==> conn.sent == old(conn.sent) + p
      ensures conn.sent <= old(conn.sent) + p
    {
      var rest := p;
      while |rest| > 0
        invariant conn.sent + rest == old(conn.sent) + p
        decreases |rest|
      {
        var nw, bad := conn.Write(rest);
        if bad {
          return true;
        }
        rest := rest[nw..];
      }
      return false;
    }

    /** Announces a window size, and every later DO NAWS is answered with it. */
    method SendNAWS(cols: int, rows: int) returns (failed: bool)
      modifies state`cols, state`rows, conn`sent
      ensures state.Settings() == old(state.Settings()).(cols := cols, rows := rows)
      ensures !failed ==> conn.sent == old(conn.sent) + Sub(OPT_NAWS, SizeBytes(cols, rows)).Print()
    {
      state.cols := cols;
      state.rows := rows;
      var frame := BuildNAWS(cols, rows);
      failed := WriteRaw(frame);
    }
  }

  /** "xterm" */
  const XTERM: Bytes := [0x78, 0x74, 0x65, 0x72, 0x6d]
}
