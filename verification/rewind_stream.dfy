/**
 * RewindStream: wraps a connection so that the last complete HTTP request
 * head read through it can be replayed. The HTTP server reads the upgrade
 * request through it; `Rewind` queues those bytes again so the WebSocket
 * handshake can read the same request; `PassThrough` then turns the wrapper
 * into plain forwarding for good.
 *
 * Byte flow while buffering: the connection feeds `bufIn`; once `bufIn`
 * starts with a complete head, that head is split off into `lastReq` and
 * copied into `bufOut`; reads are served from `bufOut`.
 */
module RewindStreams {
  import opened Common
  import opened HttpHead
  import opened InnerStream

  /** Size of the scratch buffer each pull from the connection uses. */
  const PullSize: nat := 4096

  /** How the buffering loop of `read` ends, with `bufIn` and the connection's script at that point. */
  datatype Filled =
    | Parsed(size: nat, bufIn: seq<byte>, rest: seq<Chunk>)
    | Eof(bufIn: seq<byte>, rest: seq<Chunk>)
    | Failed(error: IoError, bufIn: seq<byte>, rest: seq<Chunk>)

  /**
   * The buffering loop: try to parse a head from `bufIn`; if there is none
   * yet, pull up to PullSize bytes and try again; stop at end of stream or
   * on an error of the connection.
   */
  function Fill(bufIn: seq<byte>, script: seq<Chunk>): (f: Filled)
    ensures bufIn <= f.bufIn
    ensures bufIn + Bytes(script) == f.bufIn + Bytes(f.rest)
    ensures f.Parsed? ==> ParseHead(f.bufIn) == Some(f.size) && f.size <= |f.bufIn|
    ensures !f.Parsed? ==> ParseHead(f.bufIn).None?
    decreases Size(script)
  {
    match ParseHead(bufIn)
    case Some(n) => Parsed(n, bufIn, script)
    case None =>
      var p := Pull(script, PullSize);
      match p.result
      case Err(e) => Failed(e, bufIn, p.rest)
      case Ok(d) =>
        if |d| == 0 then Eof(bufIn, p.rest)
        else
          var f := Fill(bufIn + d, p.rest);
          assert bufIn + d + Bytes(p.rest) == bufIn + (d + Bytes(p.rest));
          f
  }

  class RewindStream {
    const io: Inner
    /** Bytes pulled from the connection and not yet recognised as a head. */
    var bufIn: seq<byte>
    /** Bytes waiting to be handed to the reader. */
    var bufOut: seq<byte>
    /** The most recently completed request head. */
    var lastReq: seq<byte>
    /** Once set, reads bypass all buffering; nothing clears it. */
    var passThrough: bool

    /** `RewindStream::new`. */
    constructor (stream: Inner)
      ensures io == stream
      ensures bufIn == [] && bufOut == [] && lastReq == [] && !passThrough
    {
      io := stream;
      bufIn, bufOut, lastReq, passThrough := [], [], [], false;
    }

    /** Queue the last request head again (only while still buffering). */
    method Rewind()
      requires !passThrough
      modifies this`bufOut
      ensures bufOut == old(bufOut) + lastReq
      ensures bufIn == old(bufIn) && lastReq == old(lastReq) && !passThrough
    {
      bufOut := bufOut + lastReq;
    }

    /** Switch to plain forwarding (at most once). */
    method PassThrough()
      requires !passThrough
      modifies this`passThrough
      ensures passThrough
      ensures bufIn == old(bufIn) && bufOut == old(bufOut) && lastReq == old(lastReq)
    {
      passThrough := true;
    }

    /**
     * `Read::read`. Pending replay bytes are served first, whatever the
     * mode. With none pending, pass-through mode forwards to the connection,
     * and buffering mode runs the loop that `Fill` describes and then serves
     * the head it found.
     */
    method Read(buf: array<byte>) returns (r: Result<nat, IoError>)
      modifies this`bufIn, this`bufOut, this`lastReq, io`incoming, buf
      ensures passThrough == old(passThrough)
      // Replay bytes pending: serve a prefix of them and touch nothing else.
      ensures old(bufOut) != [] ==>
        var k := Min(buf.Length, |old(bufOut)|);
        && r == Ok(k)
        && buf[..k] == old(bufOut)[..k] && buf[k..] == old(buf[k..])
        && bufOut == old(bufOut)[k..]
        && bufIn == old(bufIn) && lastReq == old(lastReq) && io.incoming == old(io.incoming)
      // Pass-through: exactly one read of the connection; no buffer changes.
      ensures old(bufOut) == [] && passThrough ==>
        && io.incoming == Pull(old(io.incoming), buf.Length).rest
        && Delivered(Pull(old(io.incoming), buf.Length).result, r, buf[..], old(buf[..]))
        && bufIn == old(bufIn) && bufOut == [] && lastReq == old(lastReq)
      // Buffering: the loop's outcome decides.
      ensures old(bufOut) == [] && !passThrough ==>
        var f := Fill(old(bufIn), old(io.incoming));
        && io.incoming == f.rest
        && match f
           case Parsed(n, b, _) =>
             var k := Min(buf.Length, n);
             && lastReq == b[..n] && bufIn == b[n..]
             && r == Ok(k) && buf[..k] == b[..k] && buf[k..] == old(buf[k..])
             && bufOut == b[k..n]
           case Eof(b, _) =>
             r == Ok(0) && bufIn == b && bufOut == [] && lastReq == old(lastReq) && buf[..] == old(buf[..])
           case Failed(e, b, _) =>
             r == Err(e) && bufIn == b && bufOut == [] && lastReq == old(lastReq) && buf[..] == old(buf[..])
    {
      if bufOut == [] {
        if passThrough {
          r := io.Read(buf);
          return;
        }
        var stop := Buffer();
        if stop.Some? {
          return stop.value;
        }
      }
      var len := Serve(buf);
      r := Ok(len);
    }

    /**
     * The buffering loop of `read`: parse, else pull up to PullSize bytes
     * into `bufIn` and parse again. A head that is found is split off into
     * `lastReq` and queued in `bufOut`; end of stream and connection errors
     * are what `read` returns.
     */
    method Buffer() returns (stop: Option<Result<nat, IoError>>)
      requires bufOut == []
      modifies this`bufIn, this`bufOut, this`lastReq, io`incoming
      ensures var f := Fill(old(bufIn), old(io.incoming));
        && io.incoming == f.rest
        && match f
           case Parsed(n, b, _) =>
             stop == None && lastReq == b[..n] && bufIn == b[n..] && bufOut == b[..n]
           case Eof(b, _) =>
             stop == Some(Ok(0)) && bufIn == b && bufOut == [] && lastReq == old(lastReq)
           case Failed(e, b, _) =>
             stop == Some(Err(e)) && bufIn == b && bufOut == [] && lastReq == old(lastReq)
    {
      ghost var goal := Fill(bufIn, io.incoming);
      while true
        invariant bufOut == [] && lastReq == old(lastReq)
        invariant Fill(bufIn, io.incoming) == goal
        decreases Size(io.incoming)
      {
        var size := ParseHead(bufIn);
        if size.Some? {
          lastReq := bufIn[..size.value];
          bufIn := bufIn[size.value..];
          bufOut := bufOut + lastReq;
          return None;
        }
        var tmp := new byte[PullSize];
        var got := io.Read(tmp);
        match got {
          case Err(e) =>
            return Some(Err(e));
          case Ok(len) =>
            if len > 0 {
              bufIn := bufIn + tmp[..len];
            } else {
              return Some(Ok(0));
            }
        }
      }
    }

    /** Hand the front of `bufOut` to the reader, as much as fits. */
    method Serve(buf: array<byte>) returns (len: nat)
      modifies this`bufOut, buf
      ensures len == Min(buf.Length, |old(bufOut)|)
      ensures buf[..len] == old(bufOut)[..len] && buf[len..] == old(buf[len..])
      ensures bufOut == old(bufOut)[len..]
    {
      len := Min(buf.Length, |bufOut|);
      var out := bufOut[..len];
      bufOut := bufOut[len..];
      forall i | 0 <= i < len {
        buf[i] := out[i];
      }
    }

    /** `Write::write`: forwarded; no buffer and no mode changes. */
    method Write(data: seq<byte>) returns (r: Result<nat, IoError>)
      modifies io`sent
      ensures io.broken ==> r == Err(IoError(BrokenPipe)) && io.sent == old(io.sent)
      ensures !io.broken ==> r == Ok(|data|) && io.sent == old(io.sent) + data
      ensures bufIn == old(bufIn) && bufOut == old(bufOut) && lastReq == old(lastReq)
      ensures passThrough == old(passThrough)
    {
      r := io.Write(data);
    }

    /** `Write::flush`: forwarded; no buffer and no mode changes. */
    method Flush() returns (r: Result<(), IoError>)
      modifies io`flushed
      ensures io.broken ==> r == Err(IoError(BrokenPipe)) && io.flushed == old(io.flushed)
      ensures !io.broken ==> r == Ok(()) && io.flushed == |io.sent|
      ensures bufIn == old(bufIn) && bufOut == old(bufOut) && lastReq == old(lastReq)
      ensures passThrough == old(passThrough)
    {
      r := io.Flush();
    }

    /** `AsyncWrite::shutdown`: forwarded; no buffer and no mode changes. */
    method Shutdown() returns (r: Result<(), IoError>)
      modifies io`shut
      ensures io.broken ==> r == Err(IoError(BrokenPipe)) && io.shut == old(io.shut)
      ensures !io.broken ==> r == Ok(()) && io.shut
      ensures bufIn == old(bufIn) && bufOut == old(bufOut) && lastReq == old(lastReq)
      ensures passThrough == old(passThrough)
    {
      r := io.Shutdown();
    }
  }

  /**
   * Splitting a parsed head off `bufIn` loses and duplicates nothing: the
   * bytes that were buffered or still to come equal the captured head, then
   * what stays buffered, then what is still to come.
   */
  lemma FillConserves(bufIn: seq<byte>, script: seq<Chunk>)
    ensures var f := Fill(bufIn, script);
      f.Parsed? ==> bufIn + Bytes(script) == f.bufIn[..f.size] + f.bufIn[f.size..] + Bytes(f.rest)
  {
  }

  /**
   * A malformed head is never captured: once `bufIn` starts with bytes the
   * parser rejects, the loop can only end at end of stream or on an error,
   * keeping every byte pulled, and `read` then delivers nothing of it.
   */
  lemma FillRejects(bufIn: seq<byte>, script: seq<Chunk>)
    requires Parse(bufIn).Invalid?
    ensures var f := Fill(bufIn, script);
      && (f.Eof? || f.Failed?)
      && bufIn <= f.bufIn && bufIn + Bytes(script) == f.bufIn + Bytes(f.rest)
      && Parse(f.bufIn).Invalid?
  {
    ParsePrefix(bufIn, Fill(bufIn, script).bufIn);
  }

  /**
   * The loop parses before every pull, so it stops on the first chunk that
   * completes a head: when it pulled anything, the head was not yet complete
   * in the bytes it started with, and fewer than PullSize bytes follow the
   * head in `bufIn`. Those are the only bytes left buffered at the switch to
   * pass-through.
   */
  lemma {:induction false} FillStopsAtHead(bufIn: seq<byte>, script: seq<Chunk>)
    ensures var f := Fill(bufIn, script);
      f.Parsed? && f.bufIn != bufIn ==> |f.bufIn| - f.size < PullSize && |bufIn| < f.size
    decreases Size(script)
  {
    if ParseHead(bufIn).None? {
      var p := Pull(script, PullSize);
      if p.result.Ok? && p.result.value != [] {
        var d := p.result.value;
        var f := Fill(bufIn + d, p.rest);
        assert Fill(bufIn, script) == f;
        if f.bufIn == bufIn + d {
          ParsePrefix(bufIn, bufIn + d);
        } else {
          FillStopsAtHead(bufIn + d, p.rest);
        }
      }
    }
  }

  /**
   * A request head followed by any further bytes, arriving in any split
   * into non-empty chunks, is found whole: the buffering loop stops with
   * exactly that head in front of `bufIn`, and (by Fill's contract) every
   * byte after it is either in `bufIn` behind it or still unread.
   */
  lemma {:induction false} FillFindsHead(bufIn: seq<byte>, script: seq<Chunk>, head: seq<byte>, trailing: seq<byte>)
    requires IsHead(head)
    requires bufIn + Bytes(script) == head + trailing
    requires forall i :: 0 <= i < |script| ==> script[i].Data? && script[i].bytes != []
    ensures Fill(bufIn, script).Parsed?
    ensures Fill(bufIn, script).size == |head|
    ensures Fill(bufIn, script).bufIn[..|head|] == head
    decreases Size(script)
  {
    var all := head + trailing;
    assert head <= all;
    ParsePrefix(head, all);
    if |bufIn| >= |head| {
      assert bufIn <= all;
      ParsePrefix(bufIn, all);
      assert bufIn[..|head|] == all[..|head|];
    } else {
      assert bufIn <= all;
      ParsePrefix(bufIn, all);
      assert |Bytes(script)| > 0;
      var p := Pull(script, PullSize);
      var d := p.result.value;
      assert d != [];
      forall i | 0 <= i < |p.rest|
        ensures p.rest[i].Data? && p.rest[i].bytes != []
      {
        if |script[0].bytes| <= PullSize {
          assert p.rest[i] == script[i + 1];
        } else if i > 0 {
          assert p.rest[i] == script[i];
        }
      }
      assert (bufIn + d) + Bytes(p.rest) == bufIn + (d + Bytes(p.rest));
      FillFindsHead(bufIn + d, p.rest, head, trailing);
    }
  }
}
