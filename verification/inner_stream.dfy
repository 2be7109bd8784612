/**
 * The stream a RewindStream wraps (a TCP or TLS connection). What its reads
 * will return is fixed in advance as a finite script of chunks; what is
 * written to it is recorded.
 */
module InnerStream {
  import opened Common

  /** One result the peer side delivers: some bytes (none: end of stream) or an error. */
  datatype Chunk = Data(bytes: seq<byte>) | Fail(error: IoError)

  /** All bytes still to be delivered, in order. */
  function Bytes(script: seq<Chunk>): seq<byte>
  {
    if script == [] then []
    else match script[0]
      case Data(d) => d + Bytes(script[1..])
      case Fail(_) => Bytes(script[1..])
  }

  /** A measure that every read delivering at least one byte, or an error, decreases. */
  function Size(script: seq<Chunk>): nat
  {
    if script == [] then 0
    else match script[0]
      case Data(d) => 1 + |d| + Size(script[1..])
      case Fail(_) => 1 + Size(script[1..])
  }

  /** What one `read` into a buffer of `max` bytes returns, and what remains. */
  datatype Pulled = Pulled(result: Result<seq<byte>, IoError>, rest: seq<Chunk>)

  /**
   * One `read` with room for `max` bytes: the front chunk, cut to fit, or its
   * error; an exhausted script reads as end of stream.
   */
  function Pull(script: seq<Chunk>, max: nat): (p: Pulled)
    ensures p.result.Ok? ==> |p.result.value| <= max
    ensures p.result.Ok? ==> Bytes(script) == p.result.value + Bytes(p.rest)
    ensures p.result.Err? ==> Bytes(p.rest) == Bytes(script)
    ensures p.result.Err? || |p.result.value| > 0 ==> Size(p.rest) < Size(script)
    ensures Size(p.rest) <= Size(script)
  {
    if script == [] then Pulled(Ok([]), [])
    else match script[0]
      case Fail(e) => Pulled(Err(e), script[1..])
      case Data(d) =>
        if |d| <= max then Pulled(Ok(d), script[1..])
        else
          var rest := [Data(d[max..])] + script[1..];
          assert rest[1..] == script[1..];
          assert d == d[..max] + d[max..];
          Pulled(Ok(d[..max]), rest)
  }

  class Inner {
    /** What the next reads will return. */
    var incoming: seq<Chunk>
    /** Everything written so far. */
    var sent: seq<byte>
    /** How much of `sent` has been flushed. */
    var flushed: nat
    /** A broken connection refuses writes, flushes and shutdowns. */
    var broken: bool
    /** Whether the writing side has been shut down. */
    var shut: bool

    constructor (script: seq<Chunk>, isBroken: bool)
      ensures incoming == script && sent == [] && flushed == 0 && broken == isBroken && !shut
    {
      incoming, sent, flushed, broken, shut := script, [], 0, isBroken, false;
    }

    /** `Read::read`: fills a prefix of `buf` and says how long it is. */
    method Read(buf: array<byte>) returns (r: Result<nat, IoError>)
      modifies this`incoming, buf
      ensures incoming == Pull(old(incoming), buf.Length).rest
      ensures Delivered(Pull(old(incoming), buf.Length).result, r, buf[..], old(buf[..]))
    {
      var p := Pull(incoming, buf.Length);
      incoming := p.rest;
      match p.result {
        case Err(e) =>
          r := Err(e);
        case Ok(d) =>
          forall i | 0 <= i < |d| {
            buf[i] := d[i];
          }
          r := Ok(|d|);
      }
    }

    /** `Write::write`: the whole slice is accepted unless the connection is broken. */
    method Write(data: seq<byte>) returns (r: Result<nat, IoError>)
      modifies this`sent
      ensures broken ==> r == Err(IoError(BrokenPipe)) && sent == old(sent)
      ensures !broken ==> r == Ok(|data|) && sent == old(sent) + data
    {
      if broken {
        r := Err(IoError(BrokenPipe));
      } else {
        sent := sent + data;
        r := Ok(|data|);
      }
    }

    /** `Write::flush`. */
    method Flush() returns (r: Result<(), IoError>)
      modifies this`flushed
      ensures broken ==> r == Err(IoError(BrokenPipe)) && flushed == old(flushed)
      ensures !broken ==> r == Ok(()) && flushed == |sent|
    {
      if broken {
        r := Err(IoError(BrokenPipe));
      } else {
        flushed := |sent|;
        r := Ok(());
      }
    }

    /** `AsyncWrite::shutdown`. */
    method Shutdown() returns (r: Result<(), IoError>)
      modifies this`shut
      ensures broken ==> r == Err(IoError(BrokenPipe)) && shut == old(shut)
      ensures !broken ==> r == Ok(()) && shut
    {
      if broken {
        r := Err(IoError(BrokenPipe));
      } else {
        shut := true;
        r := Ok(());
      }
    }
  }

  /**
   * A read that produced `result` left `r` as its return value and `after`
   * as the caller's buffer (it was `before`): an error touches nothing, data
   * is copied to the front and the rest of the buffer is kept.
   */
  ghost predicate Delivered(result: Result<seq<byte>, IoError>, r: Result<nat, IoError>,
                            after: seq<byte>, before: seq<byte>)
  {
    match result
    case Err(e) => r == Err(e) && after == before
    case Ok(d) =>
      r == Ok(|d|) && |d| <= |after| == |before| &&
      after[..|d|] == d && after[|d|..] == before[|d|..]
  }
}
