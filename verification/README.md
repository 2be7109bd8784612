# kuppalista, modelled in Dafny

kuppalista is a small shared shopping-list server. One process serves an
HTML page over HTTP (or HTTPS) and, on the same port, WebSocket sessions that
share one JSON document, kept in a memory-mapped, exclusively locked file.
A client that sends a new version of the list (a text message starting with
`[`) has it stored and forwarded to every other session; an optional
password must be offered as a WebSocket subprotocol.

The same TCP connection first meets the HTTP server. When the router sees an
upgrade request, it fails on purpose with the error "WebSocket". The
connection future then takes the stream back out of the HTTP server, replays
the captured request head, and hands the stream to the WebSocket handshake.
`RewindStream` makes that replay possible.

The model has one Dafny module per part of the program:

- `Common` holds bytes, `Option`, `Result` and I/O error kinds.
- `Utf8` holds UTF-8 encoding, strict decoding (`str::from_utf8`) and lossy decoding (`String::from_utf8_lossy`).
- `HttpHead` parses HTTP/1.x request heads byte by byte. It stands in for `httparse`.
- `InnerStream` is the wrapped connection. Reads are a finite script of chunks and errors, and writes are recorded.
- `RewindStreams` is the `RewindStream` class, and `Fill` specifies its buffering loop.
- `Store` holds the file system (`Disk`) and the document store (`State`: `new`, `set_json`, `get_json`).
- `Routing` holds the HTTP router and the `From` conversions into the application error type.
- `Handshake` is the subprotocol and password check (`ProtocolChecker::on_request`).
- `Sessions` covers registration, update broadcast and removal of WebSocket sessions.
- `Upgrade` is the `poll_fn` that moves a connection from HTTP to WebSocket.

Where code does things step by step, the model does too. `RewindStream`,
`Inner`, `Disk`, `State` and `HttpPhase` are classes whose methods update
fields in place. The read loop and the broadcast loop are `while` loops with
invariants. The router, the handshake check and the error conversions are
functions.

Some behaviours of the code are reproduced as written:

- A request head that `httparse` rejects is treated like one that is not complete yet. The read loop keeps pulling bytes.
- Once a stream is in pass-through mode, bytes still held in `bufIn` are never delivered. The read loop stops on the first chunk that completes a head, so fewer than 4096 bytes can be left there behind a head.
- The `upgrade` header's name is matched without ASCII case. Its value must be exactly the bytes `websocket`.
- `set_json` sizes the file to exactly the byte length of the new text. It adds no padding.
- A failed `set_json` leaves the store without a mapping. The caller's `unwrap` then ends the server.
- A first start that cannot size the new file leaves it behind empty. Every later start then fails, because a mapping of length zero is refused.

## Model

| member | source | states |
|---|---|---|
| `RewindStreams.RewindStream.constructor` | src/rewind_stream.rs:25-33 | a new wrapper has empty `bufIn`, `bufOut` and `lastReq`, is not in pass-through mode, and wraps the given stream |
| `RewindStreams.RewindStream.Rewind` | src/rewind_stream.rs:36-39 | only allowed before pass-through; appends `lastReq` to `bufOut` and changes nothing else |
| `RewindStreams.RewindStream.PassThrough` | src/rewind_stream.rs:42-45 | only allowed once; sets the flag and leaves every buffer as it was |
| `RewindStreams.RewindStream.Read` | src/rewind_stream.rs:49-83 | when replay bytes are pending, returns as many of them as fit in the buffer and touches neither the connection nor `bufIn` nor `lastReq`, whatever the mode; in pass-through with nothing pending, it is exactly one read of the connection; otherwise it returns what `Fill` decides: the head that was found is split off into `lastReq`, the rest stays in `bufIn`, and the head's first bytes are delivered (the remainder is queued); end of stream gives `Ok(0)` and keeps the partial bytes; a connection error is returned; the mode never changes |
| `RewindStreams.RewindStream.Buffer` | src/rewind_stream.rs:55-77 | the loop ends as `Fill` predicts: with a head split off into `lastReq` and queued whole in `bufOut` and the rest left in `bufIn`, or with `Ok(0)` or the connection's error and the pulled bytes kept in `bufIn`; the connection is left where `Fill` says |
| `RewindStreams.RewindStream.Serve` | src/rewind_stream.rs:80-82 | hands as many bytes from the front of `bufOut` as fit to the front of the buffer, keeps the rest of the buffer, and drops exactly those bytes from `bufOut` |
| `RewindStreams.Fill` | src/rewind_stream.rs:55-77 | the buffering loop only appends to `bufIn`, and loses and invents no byte (buffered plus unread bytes are the same before and after); when it stops on a head, the head is complete and is the first one in `bufIn`; otherwise `bufIn` holds no complete head; it stops on the first chunk that completes a head (see `FillStopsAtHead`) |
| `RewindStreams.FillConserves` | src/rewind_stream.rs:65-66 | the old buffered and unread bytes are exactly the captured head, then what stays in `bufIn`, then what is still unread |
| `RewindStreams.FillStopsAtHead` | src/rewind_stream.rs:55-73 | the loop parses before every pull and so stops on the first chunk that completes a head: when it pulled anything, the bytes it started with held no complete head, and fewer than 4096 bytes (one pull) follow the head in `bufIn` |
| `RewindStreams.FillRejects` | src/rewind_stream.rs:55-76 | once `bufIn` starts with a malformed head, the loop can only end at end of stream or on an error, every pulled byte stays in `bufIn` and the head stays malformed, so nothing of it becomes `lastReq` or is delivered |
| `RewindStreams.FillFindsHead` | src/rewind_stream.rs:55-68 | a head followed by any bytes, arriving in any split into non-empty chunks, is found whole: the loop stops with exactly that head at the front of `bufIn` |
| `RewindStreams.RewindStream.Write` | src/rewind_stream.rs:87-89 | forwards to the connection; no buffer and not the mode changes |
| `RewindStreams.RewindStream.Flush` | src/rewind_stream.rs:91-93 | forwards to the connection; no buffer and not the mode changes |
| `RewindStreams.RewindStream.Shutdown` | src/rewind_stream.rs:98-101 | forwards to the connection; no buffer and not the mode changes |
| `InnerStream.Pull` | src/rewind_stream.rs:70-71 | one read of the connection yields at most the buffer's size, in order, removing exactly those bytes from what is still to come; an error removes no byte; every read that yields data or an error makes progress |
| `InnerStream.Inner.Read` | src/rewind_stream.rs:52 | the wrapped stream's read: the pulled bytes land at the front of the buffer and the rest of the buffer is kept; an error leaves the buffer alone |
| `HttpHead.ParseHead` | src/rewind_stream.rs:56-63 | a size exactly when the parser finds a complete head (empty lines skipped, a token method, a target, HTTP/1.0 or HTTP/1.1, at most 128 header lines, CR LF or bare LF line ends), and then the head lies within the bytes and ends on a line feed; nothing both when more bytes are needed and when the head is malformed |
| `HttpHead.Step` | src/rewind_stream.rs:57-59 | one byte of the request-head grammar: empty lines skipped, a token method, a space, a target of visible ASCII without `"`, `<` and `>`, a space, `HTTP/1.0` or `HTTP/1.1`, CR LF or bare LF line ends, `token:value` header lines with a 129th refused, and the head finished only by the line feed of the empty line |
| `HttpHead.Run` | src/rewind_stream.rs:57-59 | the parser, one byte at a time: a complete verdict lies after the starting offset and within the bytes, and its last byte is a line feed |
| `HttpHead.RunPrefix` | src/rewind_stream.rs:59 | the parser decides as soon as it can: a complete or malformed verdict reached on a prefix is the verdict on every extension, and a head complete within a prefix is found in it |
| `HttpHead.ParsePrefix` | src/rewind_stream.rs:59 | whether a head is complete depends only on the bytes received so far: a prefix long enough to hold the head parses the same, a shorter one is incomplete; and a head the parser rejects stays rejected however many bytes follow |
| `HttpHead.LeadingEmptyLine` | src/rewind_stream.rs:59 | an empty line before the request line is skipped, and counted in the size of the head |
| `HttpHead.RejectsBareWord` | src/rewind_stream.rs:59-63 | `x` followed by an empty line is rejected, not complete |
| `HttpHead.AcceptsRequestLine` | src/rewind_stream.rs:59-60 | any token method and any target with HTTP/1.1, followed by an empty line, make exactly one complete head |
| `HttpHead.AcceptsMinimalRequest` | src/rewind_stream.rs:59-60 | `GET / HTTP/1.1` followed by an empty line is exactly one complete head |
| `Routing.Service` | src/main.rs:89-113 | the request is an upgrade (an error carrying "WebSocket") exactly when it is GET `/` with `upgrade` exactly `websocket`; any other GET `/` gets 200 `text/html` with the index page; every other method or path gets 404 `text/text` with body `404` |
| `Routing.HeaderGet` | src/main.rs:92 | a header lookup finds nothing exactly when no header has that name (without ASCII case), and otherwise yields the value of the first such header |
| `Routing.HeaderGetIgnoresCase` | src/main.rs:92 | a header lookup gives the same answer however the client capitalised header names |
| `Routing.ServiceIgnoresCase` | src/main.rs:90-98 | routing is the same however the client capitalised header names |
| `Routing.FromArgsError` | src/main.rs:63-71 | an argument parser's I/O error is unwrapped into the application's I/O error; every other argument error is kept whole; the result is never an `Other` error |
| `Routing.ConversionsAgree` | src/main.rs:57-71 | both conversions give the same result for the same I/O error, and no two argument errors convert to the same application error |
| `Handshake.OnRequest` | src/main.rs:148-178 | with a password, the handshake is accepted exactly when some header offers the password, and the password is echoed; otherwise 403 with no headers and body "Bad WebSocket subprotocol". Without a password it is always accepted, and no subprotocol is chosen exactly when no header carries one; otherwise the first offered token is echoed |
| `Handshake.TokensOffered` | src/main.rs:149-156 | a subprotocol is among the offered tokens exactly when some `Sec-WebSocket-Protocol` header (name without ASCII case, value valid UTF-8) has a comma-separated piece that trims to it |
| `Handshake.TokensEmpty` | src/main.rs:149-154 | there are no tokens exactly when no header has the subprotocol name with a valid UTF-8 value, because every such value yields at least one, possibly empty, token |
| `Handshake.FirstToken` | src/main.rs:168-174 | the first token is the trimmed first piece of the first header that carries any |
| `Handshake.HeaderTokensOffered` | src/main.rs:152-154 | one header's tokens are exactly the subprotocols it offers |
| `Handshake.Tokens` | src/main.rs:149-154 | the trimmed comma-separated pieces of every subprotocol header with a valid UTF-8 value, header by header and in order; `TokensOffered`, `TokensEmpty` and `FirstToken` characterise it |
| `Handshake.Split` | src/main.rs:154 | `split(',')` yields at least one piece, no piece holds a comma, and joining the pieces with commas gives back the text |
| `Handshake.SplitJoin` | src/main.rs:154 | splitting comma-free pieces joined with commas gives back exactly those pieces |
| `Handshake.Trim` | src/main.rs:154 | `trim` keeps a contiguous middle part that neither starts nor ends with whitespace, and everything cut off on either side is whitespace |
| `Handshake.TrimIdempotent` | src/main.rs:154 | trimming twice is trimming once |
| `Handshake.PasswordOffered` | src/main.rs:155-160 | a client listing another subprotocol and then the password, as in `foo,hunter2`, is accepted and gets the password echoed |
| `Handshake.PasswordNotOffered` | src/main.rs:161-166 | a client offering one subprotocol that does not trim to the password is refused with 403 |
| `Utf8.DecodeEncode` | src/main.rs:153 | strict UTF-8 decoding of a string's bytes gives back the string |
| `Utf8.EncodeDecode` | src/main.rs:153 | strict decoding accepts only the exact encoding of what it returns: bytes that decode to a string are that string's bytes |
| `Utf8.LossyOfValid` | src/state.rs:59 | on well-formed UTF-8, lossy decoding equals strict decoding |
| `Utf8.LossyEncode` | src/state.rs:52-59 | a text copied in as bytes and read back lossily is the same text |
| `Utf8.Encode` | src/state.rs:52 | the bytes a string is stored as, character by character; `DecodeEncode` and `EncodeDecode` make it the exact inverse of strict decoding |
| `Utf8.Decode` | src/main.rs:153 | strict decoding of a header value; by `DecodeEncode` and `EncodeDecode` it accepts exactly the encodings of strings and returns the encoded string |
| `Utf8.Lossy` | src/state.rs:59 | lossy decoding of the stored bytes, each maximal ill-formed subpart replaced by U+FFFD; by `LossyOfValid` it equals strict decoding on well-formed bytes |
| `Store.State.Open` | src/state.rs:27-44 | an existing file keeps its bytes and length; a missing one is created and filled with the initial list; the lock is taken, and the call fails with WouldBlock if it is already held; an existing empty file fails with InvalidInput because a mapping of length zero is refused; failing to size a new file is returned, leaving an empty file behind; on every failure the lock is released; a new store has no sessions, the given password, and a mapping |
| `Store.State.SetJson` | src/state.rs:47-55 | a non-empty text that fits is stored as exactly its bytes, whether it grew or shrank, and `GetJson` returns it; when sizing fails, the file is unchanged and StorageFull is returned; the empty text empties the file and then fails with InvalidInput, because a mapping of length zero is refused; after any failure no mapping is held; sessions and password never change |
| `Store.State.GetJson` | src/state.rs:58-60 | only defined while a mapping is held; on well-formed UTF-8 it is the stored text |
| `Store.SetJsonThenRestart` | src/state.rs:27-55 | the document outlives the process: once a text is stored, a later start on the same file, with the old lock released, succeeds and `GetJson` returns that text |
| `Store.Disk.SetLen` | src/state.rs:34 | resizing truncates or zero-extends the file, or fails with StorageFull beyond the capacity and leaves it alone |
| `Sessions.Register` | src/main.rs:186-188 | the session's address now maps to a fresh queue holding only the current document, replacing any earlier queue; the other sessions are unchanged |
| `Sessions.Accept` | src/main.rs:181-188 | the handshake decision is `OnRequest` on the store's password; only an accepted session is registered |
| `Sessions.Receive` | src/main.rs:193-212 | a message that is not text starting with `[` changes nothing; an update is stored first, so the file holds exactly its bytes and no other file changes, then queued for every other session and not for the sender, after which every other session's latest message is the stored document; a failure to store is returned with nothing queued and no mapping held |
| `Sessions.SendToOthers` | src/main.rs:203-207 | visiting the sessions in any order, appends the message to every queue except the sender's, which is `Broadcast` |
| `Sessions.BroadcastDelivers` | src/main.rs:203-207 | a broadcast keeps every session, adds exactly one message at the end of every queue but the sender's, leaves the sender's queue alone, and drops nothing already queued |
| `Sessions.BroadcastSyncs` | src/main.rs:200-207 | after an update is broadcast, every session except its sender has that update as its latest message |
| `Sessions.RegisterSyncs` | src/main.rs:186-187 | registering a session with the stored document keeps every session in sync |
| `Sessions.DeregisterSyncs` | src/main.rs:217-218 | removing the last writer leaves every remaining session in sync with no exception |
| `Sessions.Deregister` | src/main.rs:217-218 | the ended session's queue is removed and every other entry is unchanged |
| `Sessions.IsUpdate` | src/main.rs:200 | an update is a text message whose first character is `[` |
| `Sessions.Broadcast` | src/main.rs:203-207 | the reference for the `for_each`: every queue except the sender's with the message appended; `BroadcastDelivers` states its properties |
| `Upgrade.HttpPhase.Poll` | src/main.rs:116-131 | on the service's "WebSocket" error the stream is taken out, rewound and then switched to pass-through (so the rewind is legal) and handed on; while the connection is not ready nothing changes; a closed connection or any other error ends it without a WebSocket phase |
| `Upgrade.ReplayUpgrade` | src/main.rs:119-123 | called when nothing is queued for replay, as when the HTTP server has read the whole head before calling the service; after the transition, reads with buffers of any positive sizes return the captured upgrade request in order, each byte once, without reading the connection; what is not yet returned stays queued; when the buffers together have room for it, the whole request is returned, nothing is left queued, and the next read goes to the connection; the HTTP server no longer holds the stream, and nothing is written to, flushed on or shut down on the connection |
| `Upgrade.Drain` | src/rewind_stream.rs:49-50 | successive reads while bytes are queued return them from the front, in order, at least as many as the buffers have room for; they may change only the stream's buffers and the connection's unread bytes, and leave `bufIn`, `lastReq`, the mode and the unread bytes as they were, so nothing is written, flushed or shut down |
| `Upgrade.ReadQueued` | src/rewind_stream.rs:80-82 | one read while bytes are queued returns as many as fit, from the front, and drops exactly those from the queue; `bufIn`, `lastReq`, the mode and the connection (unread, sent, flushed and shut state) are unchanged |
| `Upgrade.HttpPhase.constructor` | src/main.rs:88 | the HTTP phase starts with a fresh wrapper around the connection: empty buffers, not in pass-through |
| `Upgrade.Contains` | src/main.rs:119 | `str::contains`: a contained text is never longer than the text; `ContainsInfix` and `ContainsAt` give both directions |
| `Upgrade.ServiceErrorAsksUpgrade` | src/main.rs:119 | the service's "WebSocket" error is recognised whatever text the HTTP layer wraps around it |
| `Upgrade.ContainsInfix` | src/main.rs:119 | `contains` finds a substring wherever it occurs |
| `Upgrade.ContainsAt` | src/main.rs:119 | `contains` holds only when the substring occurs at some position |

## Left out

- `HttpHead.ParseHead` follows the grammar `httparse` checks, with byte classes taken from RFC 7230: methods and header names are tokens; targets are visible ASCII without `"`, `<` and `>`; header values are tab, space, visible ASCII and bytes from 0x80. The byte tables of `httparse` differ in detail between its releases (some admit bytes from 0x80 in the target, early ones an empty method or target), and those differences are not modelled. Header names and values are checked, not stored.
- The HTTP server (hyper's `serve_connection`) and the WebSocket handshake (tungstenite's `accept_hdr_async`) are not modelled. They appear only through their results: the `Request` the router sees, the headers `on_request` sees, and the `Event`s the upgrade future polls.
- `Upgrade.HttpPhase.Poll`: a `UserError` event carries the error's display text. Hyper's wording around the service's message is not modelled. `ServiceErrorAsksUpgrade` covers any wording that includes the message.
- The file, its lock and its mapping are a `Disk` object holding whole file contents, a lock set and a capacity. A mapping of length zero is refused, as `mmap` refuses it. Other `mmap` failures, `metadata`/`open` failures and the non-atomic window between sizing and copying are not modelled. Sizing fails only when the capacity is exceeded.
- `Store.State.GetJson` states its result only for a file that is well-formed UTF-8. For other bytes it is the lossy decoding, without a separate contract. The store only ever writes well-formed text.
- The writer half of a session (`rx.forward(sink)`) is not modelled. A queue is everything ever enqueued for the session, and delivery to the socket is not modelled. The reader and writer loops run concurrently and are not interleaved in the model. A session ends with `Deregister`.
- The `unwrap` of `unbounded_send` cannot fail in the model: queues are unbounded and never closed.
- Logging (`println!`, `eprintln!`), the display texts of `AppError`, and the contents of `index.html` are not modelled. The index page is the constant body `IndexPage`.
- Command-line parsing, TLS and PKCS #12 loading and the password prompt in src/args.rs are not part of this model. Neither are `try_main`, `main` and the TCP listener and reactor loop. Only the shape of `ArgsError` is kept, for `From<ArgsError>`.
- A write to the connection is accepted whole or fails. Partial writes are not modelled.
- Integers are unbounded. `usize`/`u64` limits on lengths are not modelled.
