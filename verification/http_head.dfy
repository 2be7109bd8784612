/**
 * Recognising a complete HTTP/1.x request head in accumulated bytes: the
 * role `httparse::Request::parse` (with room for 128 headers) plays for the
 * rewind stream. The parser reads one byte at a time: empty lines before the
 * request line are skipped, then come a token method, a space, a request
 * target, a space, `HTTP/1.0` or `HTTP/1.1` and a line end; then up to 128
 * `name:value` lines and an empty line. A line end is CR LF or a bare LF.
 * The outcome is a complete head of some size, a head that needs more bytes,
 * or a head that can never become valid.
 */
module HttpHead {
  import opened Common

  const CR: byte := 13
  const LF: byte := 10
  const SP: byte := 32

  /** The header slots the stream hands to the parser. */
  const MaxHeaders: nat := 128

  /** "HTTP/1.", the fixed start of the version. */
  const VersionPrefix: seq<byte> := [72, 84, 84, 80, 47, 49, 46]

  /** A `tchar` of RFC 7230: the bytes of methods and header names. */
  predicate IsToken(c: byte)
  {
    (48 <= c <= 57) || (65 <= c <= 90) || (97 <= c <= 122) ||
    c in {33, 35, 36, 37, 38, 39, 42, 43, 45, 46, 94, 95, 96, 124, 126}
  }

  /** A byte of the request target: visible ASCII except `"`, `<` and `>`. */
  predicate IsTargetByte(c: byte)
  {
    33 <= c <= 126 && c != 34 && c != 60 && c != 62
  }

  /** A byte of a header value: tab, visible ASCII, space, or any byte from 0x80. */
  predicate IsValueByte(c: byte)
  {
    c == 9 || (32 <= c && c != 127)
  }

  /** Where the parser is. `headers` counts the header lines already read. */
  datatype Phase =
    | Blank                    // skipping empty lines before the request line
    | BlankLf                  // after a CR there
    | Method                   // inside the method, at least one byte read
    | TargetStart              // after the space that ends the method
    | Target                   // inside the request target
    | Version(matched: nat)    // `matched` bytes of "HTTP/1." read
    | RequestEnd               // after the version digit
    | RequestLf                // after the CR that ends the request line
    | LineStart(headers: nat)  // at the start of a header line or of the final empty line
    | FinalLf                  // after the CR of the final empty line
    | Name(headers: nat)       // inside a header name
    | Value(headers: nat)      // after the colon
    | ValueLf(headers: nat)    // after the CR that ends a header line

  /** What one byte does: move to a phase, finish the head, or reject it. */
  datatype Move = Next(phase: Phase) | Done | Bad

  function Step(q: Phase, c: byte): (m: Move)
    ensures m.Done? ==> c == LF
  {
    match q
    case Blank =>
      if c == CR then Next(BlankLf) else if c == LF then Next(Blank)
      else if IsToken(c) then Next(Method) else Bad
    case BlankLf => if c == LF then Next(Blank) else Bad
    case Method =>
      if c == SP then Next(TargetStart) else if IsToken(c) then Next(Method) else Bad
    case TargetStart => if IsTargetByte(c) then Next(Target) else Bad
    case Target =>
      if c == SP then Next(Version(0)) else if IsTargetByte(c) then Next(Target) else Bad
    case Version(j) =>
      if j < |VersionPrefix| then
        if c == VersionPrefix[j] then Next(Version(j + 1)) else Bad
      else if c == 48 || c == 49 then Next(RequestEnd) else Bad
    case RequestEnd =>
      if c == CR then Next(RequestLf) else if c == LF then Next(LineStart(0)) else Bad
    case RequestLf => if c == LF then Next(LineStart(0)) else Bad
    case LineStart(n) =>
      if c == CR then Next(FinalLf) else if c == LF then Done
      else if IsToken(c) && n < MaxHeaders then Next(Name(n)) else Bad
    case FinalLf => if c == LF then Done else Bad
    case Name(n) =>
      if c == 58 then Next(Value(n)) else if IsToken(c) then Next(Name(n)) else Bad
    case Value(n) =>
      if c == CR then Next(ValueLf(n)) else if c == LF then Next(LineStart(n + 1))
      else if IsValueByte(c) then Next(Value(n)) else Bad
    case ValueLf(n) => if c == LF then Next(LineStart(n + 1)) else Bad
  }

  /** The three outcomes of `httparse`: `Ok(Complete(size))`, `Ok(Partial)` and `Err(_)`. */
  datatype Status = Complete(size: nat) | Partial | Invalid

  /** The parser run from offset `i` in phase `q`. */
  function Run(b: seq<byte>, i: nat, q: Phase): (r: Status)
    requires i <= |b|
    ensures r.Complete? ==> i < r.size <= |b| && b[r.size - 1] == LF
    decreases |b| - i
  {
    if i == |b| then Partial
    else
      match Step(q, b[i])
      case Next(q') => Run(b, i + 1, q')
      case Done => Complete(i + 1)
      case Bad => Invalid
  }

  function Parse(b: seq<byte>): (r: Status)
    ensures r.Complete? ==> 0 < r.size <= |b| && b[r.size - 1] == LF
  {
    Run(b, 0, Blank)
  }

  /**
   * What the stream makes of a parse: Some(n) when `b` starts with a
   * complete head of `n` bytes; None both when more bytes are needed and
   * when the head is malformed.
   */
  function ParseHead(b: seq<byte>): (r: Option<nat>)
    ensures r.Some? <==> Parse(b).Complete?
    ensures r.Some? ==> r.value == Parse(b).size && 0 < r.value <= |b| && b[r.value - 1] == LF
  {
    match Parse(b)
    case Complete(n) => Some(n)
    case _ => None
  }

  /** `h` is exactly one complete request head. */
  predicate IsHead(h: seq<byte>)
  {
    ParseHead(h) == Some(|h|)
  }

  /**
   * The parser decides as soon as it can: a verdict (complete or malformed)
   * reached on a prefix is the verdict on every extension, and a head that
   * is complete within a prefix is found in that prefix.
   */
  lemma {:induction false} RunPrefix(p: seq<byte>, b: seq<byte>, i: nat, q: Phase)
    requires p <= b && i <= |p|
    ensures !Run(p, i, q).Partial? ==> Run(b, i, q) == Run(p, i, q)
    ensures Run(b, i, q).Complete? && Run(b, i, q).size <= |p| ==> Run(p, i, q) == Run(b, i, q)
    decreases |p| - i
  {
    if i < |p| {
      assert p[i] == b[i];
      match Step(q, p[i]) {
        case Next(q') => RunPrefix(p, b, i + 1, q');
        case Done =>
        case Bad =>
      }
    }
  }

  /**
   * Whether a head is complete depends only on the bytes received so far:
   * a prefix `p` of `b` holds the head of `b` exactly when it is long enough
   * to contain it; and a malformed head stays malformed however many bytes
   * follow.
   */
  lemma ParsePrefix(p: seq<byte>, b: seq<byte>)
    requires p <= b
    ensures ParseHead(b).Some? && ParseHead(b).value <= |p| ==> ParseHead(p) == ParseHead(b)
    ensures ParseHead(b).None? || ParseHead(b).value > |p| ==> ParseHead(p).None?
    ensures Parse(p).Invalid? ==> Parse(b).Invalid?
  {
    RunPrefix(p, b, 0, Blank);
  }

  /** Shifting the input by `a` shifts the parser's verdict by `|a|`. */
  lemma {:induction false} RunShift(a: seq<byte>, b: seq<byte>, i: nat, q: Phase)
    requires i <= |b|
    ensures Run(a + b, |a| + i, q) ==
      match Run(b, i, q) case Complete(n) => Complete(|a| + n) case s => s
    decreases |b| - i
  {
    if i < |b| {
      assert (a + b)[|a| + i] == b[i];
      match Step(q, b[i]) {
        case Next(q') => RunShift(a, b, i + 1, q');
        case Done =>
        case Bad =>
      }
    }
  }

  /**
   * An empty line before the request line is skipped, and counted in the
   * size of the head that follows it.
   */
  lemma LeadingEmptyLine(b: seq<byte>)
    ensures ParseHead([CR, LF] + b) ==
      if ParseHead(b).Some? then Some(ParseHead(b).value + 2) else None
  {
    var a: seq<byte> := [CR, LF];
    assert (a + b)[0] == CR && (a + b)[1] == LF;
    assert Run(a + b, 0, Blank) == Run(a + b, 2, Blank);
    RunShift(a, b, 0, Blank);
  }

  /** "x" followed by an empty line is no request head: it is rejected, not complete. */
  lemma RejectsBareWord()
    ensures Parse([120, 13, 10, 13, 10]).Invalid?
    ensures ParseHead([120, 13, 10, 13, 10]).None?
  {
  }

  /** One byte moves the parser from `q` to `q'`. */
  lemma StepAt(b: seq<byte>, i: nat, q: Phase, q': Phase)
    requires i < |b| && Step(q, b[i]) == Next(q')
    ensures Run(b, i, q) == Run(b, i + 1, q')
  {
  }

  /** A stretch of bytes that keeps the parser in phase `q`. */
  lemma {:induction false} RunStretch(b: seq<byte>, i: nat, j: nat, q: Phase)
    requires i <= j <= |b|
    requires forall k :: i <= k < j ==> Step(q, b[k]) == Next(q)
    ensures Run(b, i, q) == Run(b, j, q)
    decreases j - i
  {
    if i < j {
      RunStretch(b, i + 1, j, q);
    }
  }

  /**
   * A word that takes the parser from `q0` into a phase `q` it stays in,
   * ended by a space that moves it on to `q'`: the rest is parsed from `q'`.
   */
  lemma RunWord(w: seq<byte>, x: seq<byte>, q0: Phase, q: Phase, q': Phase)
    requires w != [] && Step(q0, w[0]) == Next(q)
    requires forall k :: 1 <= k < |w| ==> Step(q, w[k]) == Next(q)
    requires Step(q, SP) == Next(q')
    ensures Run(w + [SP] + x, 0, q0) ==
      match Run(x, 0, q') case Complete(n) => Complete(|w| + 1 + n) case s => s
  {
    var h := w + [SP] + x;
    assert forall k :: 0 <= k < |w| ==> h[k] == w[k];
    StepAt(h, 0, q0, q);
    RunStretch(h, 1, |w|, q);
    StepAt(h, |w|, q, q');
    assert (w + [SP]) + x == h;
    RunShift(w + [SP], x, 0, q');
  }

  /** "HTTP/1.1" and two CR LF end a request line and an empty header block. */
  lemma VersionTail()
    ensures Run(VersionPrefix + [49, CR, LF, CR, LF], 0, Version(0)) == Complete(12)
  {
    var v: seq<byte> := [72, 84, 84, 80, 47, 49, 46, 49, 13, 10, 13, 10];
    assert v == VersionPrefix + [49, CR, LF, CR, LF];
    StepAt(v, 0, Version(0), Version(1));
    StepAt(v, 1, Version(1), Version(2));
    StepAt(v, 2, Version(2), Version(3));
    StepAt(v, 3, Version(3), Version(4));
    StepAt(v, 4, Version(4), Version(5));
    StepAt(v, 5, Version(5), Version(6));
    StepAt(v, 6, Version(6), Version(7));
    StepAt(v, 7, Version(7), RequestEnd);
    StepAt(v, 8, RequestEnd, RequestLf);
    StepAt(v, 9, RequestLf, LineStart(0));
    StepAt(v, 10, LineStart(0), FinalLf);
  }

  /**
   * A request line of a token method, a target and HTTP/1.1, followed by an
   * empty line, is one complete head.
   */
  lemma AcceptsRequestLine(m: seq<byte>, t: seq<byte>)
    requires m != [] && forall k :: 0 <= k < |m| ==> IsToken(m[k])
    requires t != [] && forall k :: 0 <= k < |t| ==> IsTargetByte(t[k])
    ensures IsHead(m + [SP] + t + [SP] + VersionPrefix + [49, CR, LF, CR, LF])
  {
    var tail := VersionPrefix + [49, CR, LF, CR, LF];
    VersionTail();
    RunWord(t, tail, TargetStart, Target, Version(0));
    RunWord(m, t + [SP] + tail, Blank, Method, TargetStart);
    assert m + [SP] + (t + [SP] + tail) == m + [SP] + t + [SP] + VersionPrefix + [49, CR, LF, CR, LF];
  }

  /** "GET / HTTP/1.1" and an empty line is one complete head. */
  lemma AcceptsMinimalRequest()
    ensures IsHead([71, 69, 84, 32, 47, 32, 72, 84, 84, 80, 47, 49, 46, 49, 13, 10, 13, 10])
  {
    AcceptsRequestLine([71, 69, 84], [47]);
    assert [71, 69, 84] + [SP] + [47] + [SP] + VersionPrefix + [49, CR, LF, CR, LF]
      == [71, 69, 84, 32, 47, 32, 72, 84, 84, 80, 47, 49, 46, 49, 13, 10, 13, 10];
  }
}
