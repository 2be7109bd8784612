/**
 * The WebSocket side of src/main.rs (`handle_websocket`): a session is
 * registered when its handshake is accepted and is sent the current
 * document; every list update a session sends is stored and then queued
 * for every other session; the session is removed when its connection
 * ends. A session's queue is everything ever enqueued for it, in order.
 */
module Sessions {
  import opened Common
  import opened Utf8
  import opened Routing
  import opened Store
  import opened Handshake

  /** A text message whose first character is '[': a new version of the list. */
  predicate IsUpdate(m: Message)
  {
    m.Text? && |m.text| > 0 && m.text[0] == '['
  }

  /** Every queue but the sender's, with `m` appended. */
  function Broadcast(queues: map<Addr, seq<Message>>, sender: Addr, m: Message): map<Addr, seq<Message>>
  {
    map k | k in queues :: if k == sender then queues[k] else queues[k] + [m]
  }

  /**
   * Every session other than `writer` has been sent `json` as its most
   * recent message: its view of the list is the stored one. (The writer
   * holds that version already, having sent it.)
   */
  ghost predicate Synced(queues: map<Addr, seq<Message>>, json: string, writer: Option<Addr>)
  {
    forall k :: k in queues && writer != Some(k) ==> queues[k] != [] && queues[k][|queues[k]| - 1] == Text(json)
  }

  /**
   * A broadcast keeps every session, reaches all of them except the sender
   * with exactly one new message at the end of its queue, leaves the
   * sender's queue alone, and discards nothing already queued.
   */
  lemma BroadcastDelivers(queues: map<Addr, seq<Message>>, sender: Addr, m: Message)
    ensures var r := Broadcast(queues, sender, m);
      && r.Keys == queues.Keys
      && (forall k :: k in r ==> queues[k] <= r[k])
      && (forall k :: k in r && k != sender ==> |r[k]| == |queues[k]| + 1 && r[k][|queues[k]|] == m)
      && (sender in queues ==> r[sender] == queues[sender])
  {
  }

  /** After an update is broadcast, every session but its sender has the update as its latest message. */
  lemma BroadcastSyncs(queues: map<Addr, seq<Message>>, sender: Addr, m: Message)
    requires IsUpdate(m)
    ensures Synced(Broadcast(queues, sender, m), m.text, Some(sender))
  {
  }

  /** Registering a session with the stored document keeps every session in sync. */
  lemma RegisterSyncs(queues: map<Addr, seq<Message>>, json: string, writer: Option<Addr>, addr: Addr)
    requires Synced(queues, json, writer)
    ensures Synced(queues[addr := [Text(json)]], json, writer)
  {
  }

  /** Removing a session keeps the others in sync, and a departed writer is no exception any more. */
  lemma DeregisterSyncs(queues: map<Addr, seq<Message>>, json: string, writer: Addr)
    requires Synced(queues, json, Some(writer))
    ensures Synced(queues - {writer}, json, None)
  {
  }

  /**
   * Registration after a successful handshake: insert a fresh queue for
   * `addr`, replacing any earlier one, holding the current document.
   */
  method Register(state: State, addr: Addr)
    requires state.Valid() && state.mapped
    modifies state`connections
    ensures state.connections == old(state.connections)[addr := [Text(state.GetJson())]]
    ensures state.password == old(state.password) && state.mapped
  {
    state.connections := state.connections[addr := [Text(state.GetJson())]];
  }

  /**
   * The handshake with its callback: on acceptance the session is
   * registered; on refusal the registry is untouched.
   */
  method Accept(state: State, addr: Addr, headers: seq<Header>)
    returns (r: Result<Option<seq<(string, string)>>, ErrorResponse>)
    requires state.Valid() && state.mapped
    modifies state`connections
    ensures r == OnRequest(old(state.password), headers)
    ensures r.Ok? ==> state.connections == old(state.connections)[addr := [Text(state.GetJson())]]
    ensures r.Err? ==> state.connections == old(state.connections)
    ensures state.password == old(state.password)
  {
    r := OnRequest(state.password, headers);
    if r.Ok? {
      Register(state, addr);
    }
  }

  /**
   * The reader loop's body for one message from `addr`. An update is
   * stored and then queued, in no particular order, for every other
   * session; anything else is ignored. A failure to store is a panic of
   * the server (the `unwrap`): it is returned as the error, with nothing
   * queued.
   */
  method Receive(state: State, addr: Addr, m: Message) returns (r: Result<(), IoError>)
    requires state.Valid()
    modifies state`connections, state`mapped, state.disk`files
    ensures state.Valid() && state.password == old(state.password)
    ensures !IsUpdate(m) ==>
      r == Ok(()) && state.connections == old(state.connections) &&
      state.mapped == old(state.mapped) && state.disk.files == old(state.disk.files)
    ensures IsUpdate(m) ==> (r.Ok? <==> |Encode(m.text)| <= state.disk.limit)
    ensures IsUpdate(m) && r.Ok? ==>
      && state.mapped && state.GetJson() == m.text
      && state.disk.files == old(state.disk.files)[state.path := Encode(m.text)]
      && state.connections == Broadcast(old(state.connections), addr, m)
      && Synced(state.connections, state.GetJson(), Some(addr))
    ensures r.Err? ==>
      && r.error == IoError(StorageFull) && !state.mapped
      && state.connections == old(state.connections) && state.disk.files == old(state.disk.files)
  {
    if !IsUpdate(m) {
      return Ok(());
    }
    r := state.SetJson(m.text);
    if r.Err? {
      return;
    }
    ghost var before := state.connections;
    SendToOthers(state, addr, m);
    BroadcastSyncs(before, addr, m);
    DecodeEncode(m.text);
  }

  /**
   * The `for_each` over the registry: `m` is appended to every queue except
   * the sender's, visiting the sessions in no particular order.
   */
  method SendToOthers(state: State, addr: Addr, m: Message)
    modifies state`connections
    ensures state.connections == Broadcast(old(state.connections), addr, m)
  {
    ghost var before := state.connections;
    var todo := state.connections.Keys;
    while todo != {}
      invariant todo <= before.Keys
      invariant state.connections.Keys == before.Keys
      invariant forall k :: k in state.connections ==>
        state.connections[k] == if k in todo || k == addr then before[k] else before[k] + [m]
      decreases todo
    {
      var k :| k in todo;
      if k != addr {
        state.connections := state.connections[k := state.connections[k] + [m]];
      }
      todo := todo - {k};
    }
  }

  /** The session's connection ended: forget its queue, keep every other one. */
  method Deregister(state: State, addr: Addr)
    modifies state`connections
    ensures state.connections == old(state.connections) - {addr}
    ensures addr !in state.connections
    ensures forall k :: k in old(state.connections) && k != addr ==>
      k in state.connections && state.connections[k] == old(state.connections)[k]
  {
    state.connections := state.connections - {addr};
  }
}
