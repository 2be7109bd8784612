/**
 * The server state of src/state.rs: the live WebSocket sessions, the
 * optional password, and the shared JSON document, stored in a file that is
 * memory-mapped and exclusively locked. The file system is a `Disk` object;
 * the mapping always covers the whole file, so a mapped file's bytes are
 * the mapping's bytes and the model keeps only whether a mapping is held.
 */
module Store {
  import opened Common
  import opened Utf8

  /** A peer's socket address. */
  datatype Addr = Addr(ip: seq<byte>, port: nat)

  /** A WebSocket message. */
  datatype Message =
    | Text(text: string)
    | Binary(data: seq<byte>)
    | Ping(data: seq<byte>)
    | Pong(data: seq<byte>)
    | Close

  /**
   * The document a fresh store starts with, as the bytes that are copied
   * into the file: the ASCII text
   * [{"html":"Apples","checked":false},{"html":"Bacon","checked":false},{"html":"Coke","checked":false}]
   */
  const JsonInit: seq<byte> := [
    91, 123, 34, 104, 116, 109, 108, 34, 58, 34, 65, 112, 112, 108, 101, 115, 34, 44, 34,
    99, 104, 101, 99, 107, 101, 100, 34, 58, 102, 97, 108, 115, 101, 125, 44, 123, 34, 104,
    116, 109, 108, 34, 58, 34, 66, 97, 99, 111, 110, 34, 44, 34, 99, 104, 101, 99, 107, 101,
    100, 34, 58, 102, 97, 108, 115, 101, 125, 44, 123, 34, 104, 116, 109, 108, 34, 58, 34,
    67, 111, 107, 101, 34, 44, 34, 99, 104, 101, 99, 107, 101, 100, 34, 58, 102, 97, 108,
    115, 101, 125, 93
  ]

  /** `File::set_len`: truncate, or extend with zero bytes. */
  function Resized(b: seq<byte>, len: nat): (r: seq<byte>)
    ensures |r| == len
    ensures forall i :: 0 <= i < len && i < |b| ==> r[i] == b[i]
    ensures forall i :: |b| <= i < len ==> r[i] == 0
  {
    if len <= |b| then b[..len] else b + seq(len - |b|, _ => 0)
  }

  /** The file system: file contents, exclusive locks held, and the largest size it grants. */
  class Disk {
    var files: map<string, seq<byte>>
    var locks: set<string>
    var limit: nat

    constructor (initial: map<string, seq<byte>>, locked: set<string>, capacity: nat)
      ensures files == initial && locks == locked && limit == capacity
    {
      files, locks, limit := initial, locked, capacity;
    }

    /** `File::set_len`: fails when the file system cannot grant `len` bytes. */
    method SetLen(path: string, len: nat) returns (r: Result<(), IoError>)
      requires path in files
      modifies this`files
      ensures len <= limit ==> r == Ok(()) && files == old(files)[path := Resized(old(files)[path], len)]
      ensures len > limit ==> r == Err(IoError(StorageFull)) && files == old(files)
    {
      if len > limit {
        r := Err(IoError(StorageFull));
      } else {
        files := files[path := Resized(files[path], len)];
        r := Ok(());
      }
    }
  }

  class State {
    /** The outbound queue of every registered session: everything enqueued for it, in order. */
    var connections: map<Addr, seq<Message>>
    var password: Option<string>
    const disk: Disk
    const path: string
    /** Whether the document is mapped (`mmap` is `Some`). */
    var mapped: bool

    /** The store owns its file: it exists and this process holds its lock. */
    ghost predicate Valid()
      reads this, disk
    {
      path in disk.files && path in disk.locks
    }

    constructor Wrap(d: Disk, p: string, pw: Option<string>)
      ensures disk == d && path == p && password == pw
      ensures connections == map[] && mapped
    {
      disk, path, password := d, p, pw;
      connections := map[];
      mapped := true;
    }

    /**
     * `State::new`. An existing file keeps its bytes and its length; a
     * missing one is created and filled with JsonInit. Fails when another
     * process holds the file's lock, when the new file cannot be sized, or
     * when an existing file is empty: a mapping of length zero is refused.
     * On failure the file handle is dropped, which releases the lock.
     */
    static method Open(d: Disk, p: string, pw: Option<string>) returns (r: Result<State, IoError>)
      modifies d`files, d`locks
      ensures d.locks == (if r.Ok? then old(d.locks) + {p} else old(d.locks))
      ensures r.Ok? <==>
        p !in old(d.locks) && if p in old(d.files) then old(d.files)[p] != [] else |JsonInit| <= d.limit
      ensures r.Err? && p in old(d.locks) ==> r.error == IoError(WouldBlock)
      ensures r.Err? && p !in old(d.locks) && p in old(d.files) ==> r.error == IoError(InvalidInput)
      ensures r.Err? && p !in old(d.locks) && p !in old(d.files) ==> r.error == IoError(StorageFull)
      ensures p in old(d.files) ==> d.files == old(d.files)
      ensures p !in old(d.files) && r.Ok? ==> d.files == old(d.files)[p := JsonInit]
      ensures p !in old(d.files) && r.Err? ==> d.files == old(d.files)[p := []]
      ensures r.Ok? ==> fresh(r.value) && r.value.disk == d && r.value.path == p
      ensures r.Ok? ==> r.value.Valid() && r.value.mapped
      ensures r.Ok? ==> r.value.connections == map[] && r.value.password == pw
    {
      var existed := p in d.files;
      var len := if existed then |d.files[p]| else |JsonInit|;
      if !existed {
        d.files := d.files[p := []];
      }
      if p in d.locks {
        return Err(IoError(WouldBlock));
      }
      d.locks := d.locks + {p};
      if !existed {
        var sized := d.SetLen(p, len);
        if sized.Err? {
          d.locks := d.locks - {p};
          return Err(sized.error);
        }
        // The new mapping covers the whole file; JsonInit is copied into it.
        d.files := d.files[p := JsonInit];
      } else if len == 0 {
        // `mmap` refuses a length of zero.
        d.locks := d.locks - {p};
        return Err(IoError(InvalidInput));
      }
      var s := new State.Wrap(d, p, pw);
      r := Ok(s);
    }

    /** `State::get_json`: the mapped bytes decoded lossily; faults when no mapping is held. */
    function GetJson(): (json: string)
      reads this, disk
      requires Valid() && mapped
      ensures Decode(disk.files[path]).Some? ==> json == Decode(disk.files[path]).value
    {
      var b := disk.files[path];
      if Decode(b).Some? then LossyOfValid(b, Decode(b).value); Lossy(b) else Lossy(b)
    }

    /**
     * `State::set_json`: drop the mapping, size the file to exactly the
     * text's length, map it again and copy the text in. When sizing fails
     * the error is returned and no mapping is held any more; so too for the
     * empty text, whose mapping of length zero is refused after the file has
     * been emptied.
     */
    method SetJson(json: string) returns (r: Result<(), IoError>)
      requires Valid()
      modifies this`mapped, disk`files
      ensures Valid()
      ensures r.Ok? <==> json != [] && |Encode(json)| <= disk.limit
      ensures r.Ok? ==> mapped && disk.files == old(disk.files)[path := Encode(json)]
      ensures r.Ok? ==> GetJson() == json
      ensures r.Err? ==> !mapped
      ensures r.Err? && json != [] ==> disk.files == old(disk.files) && r.error == IoError(StorageFull)
      ensures r.Err? && json == [] ==> disk.files == old(disk.files)[path := []] && r.error == IoError(InvalidInput)
      ensures connections == old(connections) && password == old(password)
    {
      var bytes := Encode(json);
      mapped := false;
      var sized := disk.SetLen(path, |bytes|);
      if sized.Err? {
        return sized;
      }
      if |bytes| == 0 {
        // `mmap` refuses a length of zero.
        return Err(IoError(InvalidInput));
      }
      // The new mapping covers the whole file; the text is copied into it.
      disk.files := disk.files[path := bytes];
      mapped := true;
      DecodeEncode(json);
      r := Ok(());
    }
  }

  /**
   * The document outlives the process. After `SetJson` stores a text, the
   * process ends, which releases every lock. A later `State::new` on the
   * same file then succeeds and reads that text back.
   */
  method SetJsonThenRestart(s: State, json: string, pw: Option<string>)
    returns (stored: Result<(), IoError>, reopened: Result<State, IoError>)
    requires s.Valid()
    modifies s`mapped, s.disk`files
    ensures stored.Ok? <==> json != [] && |Encode(json)| <= s.disk.limit
    ensures stored.Ok? ==> reopened.Ok? && reopened.value.path == s.path
    ensures stored.Ok? ==> reopened.value.Valid() && reopened.value.mapped && reopened.value.GetJson() == json
  {
    stored := s.SetJson(json);
    var restarted := new Disk(s.disk.files, {}, s.disk.limit);
    reopened := State.Open(restarted, s.path, pw);
    if stored.Ok? {
      DecodeEncode(json);
    }
  }
}
