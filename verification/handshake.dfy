/**
 * The subprotocol check run during the WebSocket handshake
 * (`ProtocolChecker::on_request` in src/main.rs). The configured password,
 * if any, must be offered as a subprotocol. Offered subprotocols are the
 * comma-separated, whitespace-trimmed pieces of every
 * `Sec-WebSocket-Protocol` header whose value is valid UTF-8.
 */
module Handshake {
  import opened Common
  import opened Utf8
  import opened Routing

  /** The header name matched (without ASCII case) and echoed back. */
  const ProtocolHeader: string := "Sec-Websocket-Protocol"

  /** A refusal of the handshake: status code, extra headers and body. */
  datatype ErrorResponse = ErrorResponse(errorCode: nat, headers: Option<seq<(string, string)>>, body: Option<string>)

  const Forbidden: ErrorResponse := ErrorResponse(403, None, Some("Bad WebSocket subprotocol"))

  /** `char::is_whitespace`: the Unicode White_Space characters. */
  predicate IsWhitespace(c: char)
  {
    ('\U{0009}' <= c <= '\U{000D}') || c == '\U{0020}' || c == '\U{0085}' || c == '\U{00A0}' ||
    c == '\U{1680}' || ('\U{2000}' <= c <= '\U{200A}') || c == '\U{2028}' || c == '\U{2029}' ||
    c == '\U{202F}' || c == '\U{205F}' || c == '\U{3000}'
  }

  /** The number of whitespace characters `s` starts with. */
  function LeadingSpace(s: string): (k: nat)
    ensures k <= |s|
    ensures forall i :: 0 <= i < k ==> IsWhitespace(s[i])
    ensures k == |s| || !IsWhitespace(s[k])
  {
    if s == [] || !IsWhitespace(s[0]) then 0
    else
      var k := LeadingSpace(s[1..]);
      assert forall i :: 1 <= i <= k ==> s[i] == s[1..][i - 1];
      1 + k
  }

  /** The length of `s` without its trailing whitespace. */
  function TextEnd(s: string): (e: nat)
    ensures e <= |s|
    ensures forall i :: e <= i < |s| ==> IsWhitespace(s[i])
    ensures e == 0 || !IsWhitespace(s[e - 1])
  {
    if s == [] || !IsWhitespace(s[|s| - 1]) then |s|
    else TextEnd(s[..|s| - 1])
  }

  /**
   * `str::trim`: what is left after removing leading and trailing
   * whitespace; it neither starts nor ends with whitespace, and everything
   * cut away was whitespace.
   */
  function Trim(s: string): (r: string)
    ensures r == [] || (!IsWhitespace(r[0]) && !IsWhitespace(r[|r| - 1]))
    ensures LeadingSpace(s) + |r| <= |s| && r == s[LeadingSpace(s)..LeadingSpace(s) + |r|]
    ensures forall i :: LeadingSpace(s) + |r| <= i < |s| ==> IsWhitespace(s[i])
  {
    var k, e := LeadingSpace(s), TextEnd(s);
    if e <= k then [] else s[k..e]
  }

  /** Trimming twice is trimming once. */
  lemma TrimIdempotent(s: string)
    ensures Trim(Trim(s)) == Trim(s)
  {
  }

  /** The pieces joined back with commas. */
  function Join(pieces: seq<string>): string
    requires |pieces| >= 1
  {
    if |pieces| == 1 then pieces[0] else pieces[0] + [','] + Join(pieces[1..])
  }

  /**
   * `str::split(',')`: the comma-free pieces between commas. There is
   * always at least one piece; the empty string gives one empty piece.
   */
  function Split(s: string): (r: seq<string>)
    ensures |r| >= 1
    ensures forall i :: 0 <= i < |r| ==> ',' !in r[i]
    ensures Join(r) == s
  {
    if s == [] then [[]]
    else
      var rest := Split(s[1..]);
      if s[0] == ',' then
        assert [','] + s[1..] == s;
        [[]] + rest
      else
        var r := [[s[0]] + rest[0]] + rest[1..];
        assert r[1..] == rest[1..];
        assert forall i :: 1 <= i < |r| ==> r[i] == rest[i];
        assert Join(r) == s by {
          if |rest| == 1 {
            assert [s[0]] + s[1..] == s;
          } else {
            assert Join(rest) == rest[0] + [','] + Join(rest[1..]);
            assert [s[0]] + Join(rest) == s;
          }
        }
        r
  }

  lemma {:induction false} SplitPrefix(p: string, t: string)
    requires ',' !in p
    ensures Split(p + [','] + t) == [p] + Split(t)
  {
    if p != [] {
      assert (p + [','] + t)[1..] == p[1..] + [','] + t;
      SplitPrefix(p[1..], t);
      assert [p[0]] + p[1..] == p;
    } else {
      assert p + [','] + t == [','] + t;
      assert ([','] + t)[1..] == t;
    }
  }

  lemma SplitSingle(p: string)
    requires ',' !in p
    ensures Split(p) == [p]
  {
  }

  /** Splitting undoes joining: comma-free pieces come back unchanged. */
  lemma {:induction false} SplitJoin(pieces: seq<string>)
    requires |pieces| >= 1
    requires forall i :: 0 <= i < |pieces| ==> ',' !in pieces[i]
    ensures Split(Join(pieces)) == pieces
  {
    if |pieces| == 1 {
      SplitSingle(pieces[0]);
    } else {
      SplitJoin(pieces[1..]);
      SplitPrefix(pieces[0], Join(pieces[1..]));
      assert [pieces[0]] + pieces[1..] == pieces;
    }
  }

  /** Each piece, trimmed. */
  function TrimAll(pieces: seq<string>): (r: seq<string>)
    ensures |r| == |pieces|
    ensures forall i :: 0 <= i < |r| ==> r[i] == Trim(pieces[i])
  {
    seq(|pieces|, i requires 0 <= i < |pieces| => Trim(pieces[i]))
  }

  /** The header is a subprotocol header whose value is valid UTF-8. */
  predicate Carries(h: Header)
  {
    EqIgnoreAsciiCase(h.name, ProtocolHeader) && Decode(h.value).Some?
  }

  /** The subprotocols one header offers. */
  function HeaderTokens(h: Header): (r: seq<string>)
    ensures Carries(h) ==> r == TrimAll(Split(Decode(h.value).value))
    ensures !Carries(h) ==> r == []
  {
    if !EqIgnoreAsciiCase(h.name, ProtocolHeader) then []
    else match Decode(h.value)
      case None => []
      case Some(v) => TrimAll(Split(v))
  }

  /** All offered subprotocols, header by header, in order. */
  function Tokens(headers: seq<Header>): seq<string>
  {
    if headers == [] then [] else HeaderTokens(headers[0]) + Tokens(headers[1..])
  }

  /** The header offers `p`: one of its comma-separated pieces trims to `p`. */
  predicate Offers(h: Header, p: string)
  {
    Carries(h) &&
    var pieces := Split(Decode(h.value).value);
    exists j :: 0 <= j < |pieces| && Trim(pieces[j]) == p
  }

  /** One header's tokens are exactly what it offers. */
  lemma HeaderTokensOffered(h: Header, p: string)
    ensures p in HeaderTokens(h) <==> Offers(h, p)
  {
  }

  /** A subprotocol is among the tokens exactly when some header offers it. */
  lemma {:induction false} TokensOffered(headers: seq<Header>, p: string)
    ensures p in Tokens(headers) <==> exists i :: 0 <= i < |headers| && Offers(headers[i], p)
  {
    if headers != [] {
      var tail := headers[1..];
      TokensOffered(tail, p);
      HeaderTokensOffered(headers[0], p);
      assert Tokens(headers) == HeaderTokens(headers[0]) + Tokens(tail);
      if p in Tokens(headers) {
        if p in HeaderTokens(headers[0]) {
          assert Offers(headers[0], p);
        } else {
          assert p in Tokens(tail);
          var i :| 0 <= i < |tail| && Offers(tail[i], p);
          assert Offers(headers[i + 1], p);
        }
      }
      if exists i :: 0 <= i < |headers| && Offers(headers[i], p) {
        var i :| 0 <= i < |headers| && Offers(headers[i], p);
        if i > 0 {
          assert Offers(tail[i - 1], p);
        }
      }
    }
  }

  /**
   * There are no tokens exactly when no header carries the subprotocol
   * header with a valid value: a carried value always yields at least one
   * token, if only the empty one.
   */
  lemma {:induction false} TokensEmpty(headers: seq<Header>)
    ensures Tokens(headers) == [] <==> forall i :: 0 <= i < |headers| ==> !Carries(headers[i])
  {
    if headers != [] {
      TokensEmpty(headers[1..]);
      assert forall i :: 1 <= i < |headers| ==> headers[i] == headers[1..][i - 1];
    }
  }

  /** The first token is the first piece of the first header that carries any. */
  lemma {:induction false} FirstToken(headers: seq<Header>, k: nat)
    requires k < |headers| && Carries(headers[k])
    requires forall j :: 0 <= j < k ==> !Carries(headers[j])
    ensures Tokens(headers) != []
    ensures Tokens(headers)[0] == Trim(Split(Decode(headers[k].value).value)[0])
  {
    if k > 0 {
      assert forall j :: 0 <= j < k - 1 ==> headers[1..][j] == headers[j + 1];
      FirstToken(headers[1..], k - 1);
    }
  }

  /**
   * `on_request`. With a password: accept, echoing the password, exactly
   * when some header offers it; otherwise refuse with 403. Without one:
   * echo the first offered token, or negotiate no subprotocol when there is
   * none.
   */
  function OnRequest(password: Option<string>, headers: seq<Header>)
    : (r: Result<Option<seq<(string, string)>>, ErrorResponse>)
    ensures password.Some? ==>
      (r.Ok? <==> exists i :: 0 <= i < |headers| && Offers(headers[i], password.value))
    ensures password.Some? && r.Ok? ==> r.value == Some([(ProtocolHeader, password.value)])
    ensures password.Some? && r.Err? ==> r.error == Forbidden
    ensures password.None? ==> r.Ok?
    ensures password.None? ==>
      (r.value.None? <==> forall i :: 0 <= i < |headers| ==> !Carries(headers[i]))
    ensures password.None? && r.value.Some? ==>
      Tokens(headers) != [] && r.value.value == [(ProtocolHeader, Tokens(headers)[0])]
  {
    TokensEmpty(headers);
    var protocols := Tokens(headers);
    match password
    case Some(p) =>
      TokensOffered(headers, p);
      if p in protocols then Ok(Some([(ProtocolHeader, p)])) else Err(Forbidden)
    case None =>
      if |protocols| > 0 then Ok(Some([(ProtocolHeader, protocols[0])])) else Ok(None)
  }

  /** Two comma-free pieces joined by one comma split back into those two. */
  lemma SplitTwo(a: string, b: string)
    requires ',' !in a && ',' !in b
    ensures Split(a + [','] + b) == [a, b]
  {
    SplitPrefix(a, b);
    SplitSingle(b);
  }

  /**
   * With a password set, a client whose subprotocol header lists some other
   * subprotocol and then the password (as "foo,hunter2" for the password
   * "hunter2") is accepted, and the password is echoed.
   */
  lemma PasswordOffered(password: string, other: string)
    requires ',' !in password && ',' !in other && Trim(password) == password
    ensures OnRequest(Some(password), [Header(ProtocolHeader, Encode(other + [','] + password))])
      == Ok(Some([(ProtocolHeader, password)]))
  {
    var offer := other + [','] + password;
    var h := Header(ProtocolHeader, Encode(offer));
    DecodeEncode(offer);
    SplitTwo(other, password);
    assert Trim(Split(offer)[1]) == password;
    assert Offers([h][0], password);
  }

  /**
   * With a password set, a client offering a single subprotocol that does
   * not trim to the password (as "foo" for the password "hunter2") is
   * refused with 403.
   */
  lemma PasswordNotOffered(password: string, offer: string)
    requires ',' !in offer && Trim(offer) != password
    ensures OnRequest(Some(password), [Header(ProtocolHeader, Encode(offer))]) == Err(Forbidden)
  {
    var h := Header(ProtocolHeader, Encode(offer));
    DecodeEncode(offer);
    SplitSingle(offer);
    assert Split(Decode(h.value).value) == [offer];
    assert !Offers(h, password);
    assert !exists i :: 0 <= i < |[h]| && Offers([h][i], password);
  }
}
