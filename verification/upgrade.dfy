/**
 * The step from HTTP to WebSocket in `handle_http` (src/main.rs): the HTTP
 * connection is polled; when it fails with the service's "WebSocket"
 * error, the stream is taken out of it, the upgrade request is queued
 * again, the stream is switched to plain forwarding, and it is handed to
 * the WebSocket handshake.
 */
module Upgrade {
  import opened Common
  import opened InnerStream
  import opened RewindStreams

  /** `str::contains`: `sub` occurs in `s` at some position. */
  function Contains(s: string, sub: string): (r: bool)
    ensures r ==> |sub| <= |s|
    decreases |s|
  {
    if sub <= s then true
    else if s == [] then false
    else Contains(s[1..], sub)
  }

  /** Any text with `sub` inside it contains `sub`. */
  lemma {:induction false} ContainsInfix(pre: string, sub: string, post: string)
    ensures Contains(pre + sub + post, sub)
  {
    if pre == [] {
      assert pre + sub + post == sub + post;
    } else if !(sub <= pre + sub + post) {
      assert (pre + sub + post)[1..] == pre[1..] + sub + post;
      ContainsInfix(pre[1..], sub, post);
    }
  }

  /** And `Contains` finds nothing that is not there: it names a position where `sub` occurs. */
  lemma {:induction false} ContainsAt(s: string, sub: string) returns (i: nat)
    requires Contains(s, sub)
    ensures i + |sub| <= |s| && s[i..i + |sub|] == sub
    decreases |s|
  {
    if sub <= s {
      i := 0;
    } else {
      var j := ContainsAt(s[1..], sub);
      assert s[1..][j..j + |sub|] == s[j + 1..j + 1 + |sub|];
      i := j + 1;
    }
  }

  /** What one poll of the HTTP connection reports. */
  datatype Event =
    | Closed                      // `Ok(Async::Ready(_))`: the connection ended normally
    | NotReady                    // `Ok(Async::NotReady)`
    | UserError(message: string)  // an error raised by the service, by its display text
    | OtherError(message: string) // any other error of the HTTP connection

  /** What the polled future does. */
  datatype Outcome = Pending | Upgraded | Dropped

  /** The event that asks for the switch to WebSocket. */
  predicate AsksUpgrade(e: Event)
  {
    e.UserError? && Contains(e.message, "WebSocket")
  }

  /** The service's "WebSocket" error is recognised whatever text the HTTP layer wraps around it. */
  lemma ServiceErrorAsksUpgrade(pre: string, post: string)
    ensures AsksUpgrade(UserError(pre + "WebSocket" + post))
  {
    ContainsInfix(pre, "WebSocket", post);
  }

  /** The future polled by `handle_http`, holding the HTTP connection until it is taken. */
  class HttpPhase {
    /** The stream the HTTP connection serves, while it has not been taken out. */
    var conn: RewindStream?

    constructor (io: Inner)
      ensures conn != null && fresh(conn) && conn.io == io
      ensures conn.bufIn == [] && conn.bufOut == [] && conn.lastReq == [] && !conn.passThrough
    {
      conn := new RewindStream(io);
    }

    /**
     * One poll. On the upgrade signal the stream is rewound and then put in
     * pass-through, in that order, and handed on; while the connection is
     * not ready, nothing happens; any other outcome ends the connection
     * without a WebSocket phase.
     */
    method Poll(event: Event) returns (out: Outcome, ws: RewindStream?)
      requires conn != null && !conn.passThrough
      modifies this`conn, conn`bufOut, conn`passThrough
      ensures AsksUpgrade(event) ==>
        && out == Upgraded && ws == old(conn) && conn == null
        && ws.passThrough && ws.bufOut == old(conn.bufOut) + old(conn.lastReq)
        && ws.bufIn == old(conn.bufIn) && ws.lastReq == old(conn.lastReq)
      ensures !AsksUpgrade(event) ==>
        && ws == null && conn == old(conn) && !conn.passThrough && conn.bufOut == old(conn.bufOut)
      ensures event.NotReady? ==> out == Pending
      ensures !event.NotReady? && !AsksUpgrade(event) ==> out == Dropped
    {
      match event {
        case Closed =>
          out, ws := Dropped, null;
        case NotReady =>
          out, ws := Pending, null;
        case UserError(message) =>
          if Contains(message, "WebSocket") {
            var io := conn;
            conn := null;
            io.Rewind();
            io.PassThrough();
            out, ws := Upgraded, io;
          } else {
            out, ws := Dropped, null;
          }
        case OtherError(_) =>
          out, ws := Dropped, null;
      }
    }
  }

  /** The room offered by a series of reads: the sum of their buffer sizes. */
  function Total(sizes: seq<nat>): nat
  {
    if sizes == [] then 0 else Total(sizes[..|sizes| - 1]) + sizes[|sizes| - 1]
  }

  /**
   * What the WebSocket handshake then reads. After the transition, reads
   * with buffers of the sizes in `sizes` (each at least one byte) return
   * the captured upgrade request in order, each byte once, without touching
   * the connection, until it is all returned or the reads run out; the part
   * not yet returned is still queued. When the buffers together have room
   * for it, the whole request is returned and nothing is left queued, so the
   * next read goes to the connection.
   */
  method ReplayUpgrade(phase: HttpPhase, message: string, sizes: seq<nat>) returns (ws: RewindStream?, got: seq<byte>)
    requires phase.conn != null && !phase.conn.passThrough && phase.conn.bufOut == []
    requires Contains(message, "WebSocket")
    requires forall i :: 0 <= i < |sizes| ==> sizes[i] > 0
    modifies phase`conn, phase.conn`bufIn, phase.conn`bufOut, phase.conn`lastReq, phase.conn`passThrough
    modifies phase.conn.io`incoming
    ensures ws == old(phase.conn) && ws != null && ws.passThrough && phase.conn == null
    ensures got + ws.bufOut == old(phase.conn.lastReq)
    ensures |got| >= Min(|old(phase.conn.lastReq)|, Total(sizes))
    ensures |old(phase.conn.lastReq)| <= Total(sizes) ==> got == old(phase.conn.lastReq) && ws.bufOut == []
    ensures ws.bufIn == old(phase.conn.bufIn) && ws.lastReq == old(phase.conn.lastReq)
    ensures ws.io.incoming == old(phase.conn.io.incoming)
  {
    var out;
    out, ws := phase.Poll(UserError(message));
    got := Drain(ws, sizes);
  }

  /**
   * Reads with buffers of the sizes in `sizes`, stopping early once nothing
   * is queued: they return the queued bytes from the front, in order, and
   * at least as many as the buffers have room for; the connection and the
   * other buffers are not touched.
   */
  method Drain(ws: RewindStream, sizes: seq<nat>) returns (got: seq<byte>)
    requires forall i :: 0 <= i < |sizes| ==> sizes[i] > 0
    modifies ws`bufIn, ws`bufOut, ws`lastReq, ws.io`incoming
    ensures got + ws.bufOut == old(ws.bufOut)
    ensures |got| >= Min(|old(ws.bufOut)|, Total(sizes))
    ensures ws.passThrough == old(ws.passThrough)
    ensures ws.bufIn == old(ws.bufIn) && ws.lastReq == old(ws.lastReq)
    ensures ws.io.incoming == old(ws.io.incoming)
  {
    ghost var queue := ws.bufOut;
    got := [];
    var k := 0;
    while k < |sizes| && ws.bufOut != []
      invariant k <= |sizes| && |got| <= |queue|
      invariant ws.passThrough == old(ws.passThrough)
      invariant ws.bufIn == old(ws.bufIn) && ws.lastReq == old(ws.lastReq)
      invariant ws.io.incoming == old(ws.io.incoming)
      invariant got == queue[..|got|] && ws.bufOut == queue[|got|..]
      invariant |got| >= Min(|queue|, Total(sizes[..k]))
    {
      var piece := ReadQueued(ws, sizes[k]);
      assert queue[..|got|] + piece == queue[..|got| + |piece|];
      assert sizes[..k + 1][..k] == sizes[..k];
      got := got + piece;
      k := k + 1;
    }
    if k == |sizes| {
      assert sizes[..k] == sizes;
    }
    assert got + ws.bufOut == queue;
  }

  /**
   * One read, with a buffer of `size` bytes, while bytes are queued: it
   * returns as many queued bytes as fit, from the front, and nothing else
   * changes.
   */
  method ReadQueued(ws: RewindStream, size: nat) returns (piece: seq<byte>)
    requires ws.bufOut != [] && size > 0
    modifies ws`bufIn, ws`bufOut, ws`lastReq, ws.io`incoming
    ensures piece == old(ws.bufOut)[..Min(size, |old(ws.bufOut)|)]
    ensures ws.bufOut == old(ws.bufOut)[|piece|..]
    ensures ws.passThrough == old(ws.passThrough)
    ensures ws.bufIn == old(ws.bufIn) && ws.lastReq == old(ws.lastReq)
    ensures ws.io.incoming == old(ws.io.incoming)
  {
    var buf := new byte[size];
    var r := ws.Read(buf);
    piece := buf[..r.value];
  }
}
