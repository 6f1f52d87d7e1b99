/** One TCP connection: the read loop, its buffer, and the temporary file of an uploaded model. */
module TcpSession {
  import opened Basics
  import opened HeaderCodec
  import opened Framing

  // ---------------------------------------------------------------- what the session writes

  function ErrorReply(server: Server, pos: nat): Header {
    ResponseHeader(-1, server.errorSize(pos))
  }

  /** The header that answers the request in the frame at `pos`. */
  function Reply(server: Server, pos: nat, kind: int): Header {
    match server.outcome(pos)
    case Replied(size, _) => ResponseHeader(kind, size)
    case Failed => ErrorReply(server, pos)
  }

  /** What is written when no frame can be read at `pos`: an error for a bad header or a file that cannot be opened. */
  function Refusal(server: Server, peer: Peer, pos: nat): seq<Header>
    requires pos <= |peer.stream|
  {
    if ReadSome(peer, pos, HEADER_SIZE) < HEADER_SIZE then []
    else
      match ReadHeader(server, peer, pos)
      case None => [ErrorReply(server, pos)]
      case Some(h) => if Gather(peer, pos + HEADER_SIZE, h.jsonLength).1 then UploadRefusal(server, pos, h) else []
  }

  function UploadRefusal(server: Server, pos: nat, h: Header): seq<Header> {
    if IsUpload(h) && !server.opens(pos) then [ErrorReply(server, pos)] else []
  }

  /** Every header a session writes from `pos` on. */
  function Replies(server: Server, peer: Peer, pos: nat): seq<Header>
    requires pos <= |peer.stream|
    decreases |peer.stream| - pos
  {
    match ReadFrame(server, peer, pos)
    case None => Refusal(server, peer, pos)
    case Some(r) =>
      ReadFrameIsFrame(server, peer, pos);
      [Reply(server, pos, r.kind)] + if GoesOn(server.outcome(pos)) then Replies(server, peer, After(pos, r)) else []
  }

  /** Where the frames of the requests start. */
  function FrameStarts(server: Server, peer: Peer, pos: nat): seq<nat>
    requires pos <= |peer.stream|
    decreases |peer.stream| - pos
  {
    match ReadFrame(server, peer, pos)
    case None => []
    case Some(r) =>
      ReadFrameIsFrame(server, peer, pos);
      [pos] + if GoesOn(server.outcome(pos)) then FrameStarts(server, peer, After(pos, r)) else []
  }

  /** What follows the frame at `start`: it takes 26 bytes and its length. */
  function NextStart(peer: Peer, start: nat): int
    requires start + HEADER_SIZE <= |peer.stream|
  {
    start + HEADER_SIZE + Received(peer.stream[start..start + HEADER_SIZE]).length
  }

  /**
   * A frame is read at every start, the first at `pos`. Unless its reply could not be written, the session reads on
   * right behind it, also after a failed task, and it ends where no frame can be read.
   */
  ghost predicate IsChain(server: Server, peer: Peer, pos: int, starts: seq<nat>)
    decreases |starts|
  {
    && 0 <= pos <= |peer.stream|
    && if starts == [] then ReadFrame(server, peer, pos).None?
       else
         && starts[0] == pos && ReadFrame(server, peer, pos).Some? && pos + HEADER_SIZE <= |peer.stream|
         && if server.outcome(pos).Replied? && !server.outcome(pos).written then starts[1..] == []
            else IsChain(server, peer, NextStart(peer, pos), starts[1..])
  }

  lemma {:induction false} SessionsAreChains(server: Server, peer: Peer, pos: nat)
    requires pos <= |peer.stream|
    ensures IsChain(server, peer, pos, FrameStarts(server, peer, pos))
    decreases |peer.stream| - pos
  {
    var frame := ReadFrame(server, peer, pos);
    if frame.Some? {
      FrameIsLink(server, peer, pos);
      if GoesOn(server.outcome(pos)) {
        var next := After(pos, frame.value);
        SessionsAreChains(server, peer, next);
        OneMoreLink(server, peer, pos, FrameStarts(server, peer, next));
      } else {
        LastLink(server, peer, pos);
      }
    }
  }

  lemma FrameIsLink(server: Server, peer: Peer, pos: nat)
    requires pos <= |peer.stream| && ReadFrame(server, peer, pos).Some?
    ensures pos + HEADER_SIZE <= |peer.stream| && NextStart(peer, pos) == After(pos, ReadFrame(server, peer, pos).value)
    ensures After(pos, ReadFrame(server, peer, pos).value) <= |peer.stream|
  {
    ReadFrameIsFrame(server, peer, pos);
  }

  lemma OneMoreLink(server: Server, peer: Peer, pos: nat, starts: seq<nat>)
    requires pos + HEADER_SIZE <= |peer.stream| && ReadFrame(server, peer, pos).Some?
    requires GoesOn(server.outcome(pos)) && IsChain(server, peer, NextStart(peer, pos), starts)
    ensures IsChain(server, peer, pos, [pos] + starts)
  {
    Tail(pos, starts);
  }

  lemma LastLink(server: Server, peer: Peer, pos: nat)
    requires pos + HEADER_SIZE <= |peer.stream| && ReadFrame(server, peer, pos).Some?
    requires !GoesOn(server.outcome(pos))
    ensures IsChain(server, peer, pos, [pos])
  {
    Tail(pos, []);
  }

  /** A session is only one chain. */
  lemma {:induction false} ChainsAreUnique(server: Server, peer: Peer, pos: int, starts: seq<nat>, others: seq<nat>)
    requires IsChain(server, peer, pos, starts) && IsChain(server, peer, pos, others)
    ensures starts == others
    decreases |starts|
  {
    if starts != [] {
      if !(server.outcome(pos).Replied? && !server.outcome(pos).written) {
        ChainsAreUnique(server, peer, NextStart(peer, pos), starts[1..], others[1..]);
      }
      assert starts == [starts[0]] + starts[1..] && others == [others[0]] + others[1..];
    }
  }

  /** What is written when no frame can be read: one error or nothing, and exactly when. */
  lemma RefusalExactly(server: Server, peer: Peer, pos: nat)
    requires pos <= |peer.stream|
    ensures |Refusal(server, peer, pos)| <= 1
    ensures forall reply :: reply in Refusal(server, peer, pos) ==>
              Received(Packed(reply)) == Header(-1, server.errorSize(pos), server.errorSize(pos), 0)
    ensures ReadSome(peer, pos, HEADER_SIZE) < HEADER_SIZE ==> Refusal(server, peer, pos) == []
    ensures ReadSome(peer, pos, HEADER_SIZE) == HEADER_SIZE ==>
              var h := Received(peer.stream[pos..pos + HEADER_SIZE]);
              var acceptable := 0 <= h.jsonLength <= server.payloadLimit && h.length == h.jsonLength + h.postLength &&
                                0 <= h.postLength <= (if h.kind == 1 then server.uploadLimit else server.payloadLimit);
              Refusal(server, peer, pos) != [] <==>
              !acceptable || (Gather(peer, pos + HEADER_SIZE, h.jsonLength).1 &&
                              h.kind == 1 && h.postLength > 0 && !server.opens(pos))
  {
    ResponseIsWellFramed(-1, server.errorSize(pos));
  }

  /** `reply` answers `r`, which is the frame at `start`: of its kind if the task replied, of kind -1 if it failed. */
  ghost predicate Answers(server: Server, peer: Peer, start: nat, r: Request, reply: Header) {
    && start <= |peer.stream| && ReadFrame(server, peer, start) == Some(r)
    && Received(Packed(reply)) ==
       match server.outcome(start)
       case Replied(size, _) => Header(r.kind, size, size, 0)
       case Failed => Header(-1, server.errorSize(start), server.errorSize(start), 0)
  }

  /** The requests are answered one by one, with at most one more header after them. */
  ghost predicate Answered(server: Server, peer: Peer, starts: seq<nat>, requests: seq<Request>, replies: seq<Header>)
    decreases |requests|
  {
    if requests == [] then starts == [] && |replies| <= 1
    else
      && starts != [] && replies != [] && Answers(server, peer, starts[0], requests[0], replies[0])
      && Answered(server, peer, starts[1..], requests[1..], replies[1..])
  }

  /**
   * Every request gets its own well-framed reply, in order, by what its task came to. At most one more header is
   * written, when the session refuses a frame.
   */
  lemma {:induction false} EveryRequestIsAnswered(server: Server, peer: Peer, pos: nat)
    requires pos <= |peer.stream|
    ensures Answered(server, peer, FrameStarts(server, peer, pos), Serve(server, peer, pos), Replies(server, peer, pos))
    decreases |peer.stream| - pos
  {
    var frame := ReadFrame(server, peer, pos);
    if frame.Some? {
      ReplyIsReceived(server, peer, pos);
      var reply := Reply(server, pos, frame.value.kind);
      if GoesOn(server.outcome(pos)) {
        ReadFrameIsFrame(server, peer, pos);
        var next := After(pos, frame.value);
        EveryRequestIsAnswered(server, peer, next);
        OneMoreAnswered(server, peer, pos, frame.value, reply,
                        FrameStarts(server, peer, next), Serve(server, peer, next), Replies(server, peer, next));
      } else {
        OneMoreAnswered(server, peer, pos, frame.value, reply, [], [], []);
      }
    }
  }

  lemma OneMoreAnswered(server: Server, peer: Peer, start: nat, r: Request, reply: Header,
                        starts: seq<nat>, requests: seq<Request>, replies: seq<Header>)
    requires Answers(server, peer, start, r, reply) && Answered(server, peer, starts, requests, replies)
    ensures Answered(server, peer, [start] + starts, [r] + requests, [reply] + replies)
  {
    Tail(start, starts);
    Tail(r, requests);
    Tail(reply, replies);
  }

  lemma Tail<T>(x: T, xs: seq<T>)
    ensures ([x] + xs)[0] == x && ([x] + xs)[1..] == xs
  {
  }

  lemma ReplyIsReceived(server: Server, peer: Peer, pos: nat)
    requires pos <= |peer.stream| && ReadFrame(server, peer, pos).Some?
    ensures var r := ReadFrame(server, peer, pos).value;
            Answers(server, peer, pos, r, Reply(server, pos, r.kind))
  {
    KindOfFrame(server, peer, pos);
    match server.outcome(pos)
    case Replied(size, _) => ResponseIsWellFramed(ReadFrame(server, peer, pos).value.kind, size);
    case Failed => ResponseIsWellFramed(-1, server.errorSize(pos));
  }

  lemma ServeUnfolds(server: Server, peer: Peer, pos: nat, requests: seq<Request>, replies: seq<Header>)
    requires pos <= |peer.stream|
    ensures match ReadFrame(server, peer, pos)
            case None =>
              && requests + Serve(server, peer, pos) == requests
              && Replies(server, peer, pos) == Refusal(server, peer, pos)
            case Some(r) =>
              && After(pos, r) <= |peer.stream|
              && requests + Serve(server, peer, pos) ==
                 requests + [r] + (if GoesOn(server.outcome(pos)) then Serve(server, peer, After(pos, r)) else [])
              && replies + Replies(server, peer, pos) ==
                 replies + [Reply(server, pos, r.kind)]
                 + (if GoesOn(server.outcome(pos)) then Replies(server, peer, After(pos, r)) else [])
  {
    var frame := ReadFrame(server, peer, pos);
    if frame.Some? {
      ReadFrameIsFrame(server, peer, pos);
      var next := After(pos, frame.value);
      var on := GoesOn(server.outcome(pos));
      Regroup(requests, [frame.value], if on then Serve(server, peer, next) else []);
      Regroup(replies, [Reply(server, pos, frame.value.kind)], if on then Replies(server, peer, next) else []);
    }
  }

  class Session {
    const server: Server
    const peer: Peer
    const original: map<string, seq<Byte>> // the file system when the session started

    var position: nat // bytes taken from the stream so far
    const buffer: Vector<Byte>
    var uploadedModelPath: string
    var files: map<string, seq<Byte>>
    ghost var named: set<string>        // every temporary file name this session has used
    var requests: seq<Request>          // the tasks it has run
    ghost var replies: seq<Header>      // the headers it has written

    /**
     * Of the files this session named, at most the one it would remove next still exists, and those that the file
     * system did not let it remove; no other file changed.
     */
    ghost predicate Valid()
      reads this
    {
      && position <= |peer.stream|
      && "" !in original && "" !in files && "" !in named
      && files - named == original - named
      && (forall path :: path in named && path in files && path != uploadedModelPath ==> !server.removes(path))
      && (uploadedModelPath != "" ==> uploadedModelPath in named)
      && (forall path :: path in named ==> IsUploadPath(server, path))
    }

    constructor (server: Server, peer: Peer, files: map<string, seq<Byte>>)
      requires "" !in files
      ensures Valid()
      ensures this.server == server && this.peer == peer && this.original == files
      ensures position == 0 && requests == [] && replies == [] && named == {}
      ensures fresh(buffer)
    {
      this.server, this.peer, this.original, this.files := server, peer, files, files;
      position, uploadedModelPath := 0, "";
      buffer := new Vector<Byte>();
      named, requests, replies := {}, [], [];
    }

    method CleanupUpload()
      requires Valid()
      modifies this`uploadedModelPath, this`files
      ensures Valid() && uploadedModelPath == ""
      ensures files == if server.removes(old(uploadedModelPath)) then old(files) - {old(uploadedModelPath)} else old(files)
    {
      if uploadedModelPath == "" {
        assert files - {""} == files;
        return;
      }
      if server.removes(uploadedModelPath) {
        files := files - {uploadedModelPath};
      }
      uploadedModelPath := "";
    }

    /** Reads the next `length` bytes chunk by chunk into the sink; on failure, as many as arrived. */
    method ReadExact(length: int, sink: Vector<Byte>) returns (ok: bool)
      requires position <= |peer.stream|
      modifies this`position, sink
      ensures (position, ok) == Gather(peer, old(position), length)
      ensures sink.items == old(sink.items) + peer.stream[old(position)..position]
    {
      var remaining := length;
      while remaining > 0
        invariant old(position) <= position <= |peer.stream|
        invariant Gather(peer, position, remaining) == Gather(peer, old(position), length)
        invariant sink.items == old(sink.items) + peer.stream[old(position)..position]
        decreases remaining
      {
        var n := ReadSome(peer, position, if MAX_RECV_BUF_LENGTH < remaining then MAX_RECV_BUF_LENGTH else remaining);
        GatherStep(peer, position, remaining, n);
        if n == 0 {
          return false;
        }
        Adjacent(peer.stream, old(position), position, position + n);
        Regroup(old(sink.items), peer.stream[old(position)..position], peer.stream[position..position + n]);
        sink.items := sink.items + peer.stream[position..position + n];
        position := position + n;
        remaining := remaining - n;
      }
      ok := true;
    }

    method DoWrite(header: Header, written: bool) returns (ok: bool)
      modifies this`replies
      ensures replies == old(replies) + [header] && ok == written
    {
      replies := replies + [header];
      ok := written;
    }

    method SendError(size: Size)
      modifies this`replies
      ensures replies == old(replies) + [ResponseHeader(-1, size)]
    {
      var _ := DoWrite(ResponseHeader(-1, size), true);
    }

    /** Reads the header in a single read, and tells the client if it is not acceptable. */
    method DoReadHeader() returns (req: Option<Header>)
      requires position <= |peer.stream| && SafeLimits(server)
      modifies this`position, this`replies
      ensures req == ReadHeader(server, peer, old(position))
      ensures position == old(position) + ReadSome(peer, old(position), HEADER_SIZE)
      ensures replies == if req.None? && position == old(position) + HEADER_SIZE
                         then old(replies) + [ErrorReply(server, old(position))] else old(replies)
    {
      var start := position;
      var n := ReadSome(peer, position, HEADER_SIZE);
      position := position + n;
      if n < HEADER_SIZE {
        return None;
      }
      var header := Received(peer.stream[start..position]);
      var isCreate := header.kind == CREATE_SESSION;
      var postLimit := if isCreate then server.uploadLimit else server.payloadLimit;
      if header.jsonLength < 0 || header.postLength < 0 || header.jsonLength > server.payloadLimit
         || header.postLength > postLimit || header.length != Sum(header.jsonLength, header.postLength)
      {
        SendError(server.errorSize(start));
        return None;
      }
      req := Some(header);
    }

    /** Streams a model upload to its own temporary file. */
    method ReadUpload(start: nat, length: int) returns (ok: bool)
      requires Valid() && uploadedModelPath == ""
      modifies this
      ensures Valid() && buffer.items == old(buffer.items) && requests == old(requests)
      ensures uploadedModelPath == UploadPath(server, start)
      ensures ok <==> server.opens(start) && server.stores(start) && Gather(peer, old(position), length).1
      ensures ok ==>
                && replies == old(replies)
                && position == Gather(peer, old(position), length).0
                && uploadedModelPath in files && files[uploadedModelPath] == peer.stream[old(position)..position]
      ensures replies == if server.opens(start) then old(replies)
                         else old(replies) + [ErrorReply(server, start)]
    {
      uploadedModelPath := UploadPath(server, start);
      MoreNamed(files, original, named, uploadedModelPath);
      named := named + {uploadedModelPath};
      if !server.opens(start) {
        SendError(server.errorSize(start));
        return false;
      }
      var ofs := new Vector<Byte>();
      files := files[uploadedModelPath := ofs.items];
      ok := ReadExact(length, ofs);
      files := files[uploadedModelPath := ofs.items];
      ok := ok && server.stores(start);
    }

    /** Reads the second part of an accepted frame, to disk for a model and into the buffer otherwise. */
    method DoReadPost(start: nat, header: Header) returns (ok: bool)
      requires Valid() && uploadedModelPath == "" && header.jsonLength >= 0 && header.postLength >= 0
      requires position == start + HEADER_SIZE + header.jsonLength
      requires buffer.items == peer.stream[start + HEADER_SIZE..position]
      modifies this, buffer
      ensures Valid() && requests == old(requests)
      ensures replies == old(replies) + UploadRefusal(server, start, header)
      ensures ok <==>
                Gather(peer, old(position), header.postLength).1 &&
                (IsUpload(header) ==> server.opens(start) && server.stores(start))
      ensures ok ==>
                && position == old(position) + header.postLength
                && WereRead(server, peer.stream, start, header, uploadedModelPath, buffer.items, files)
    {
      GatherIsExact(peer, position, header.postLength);
      if header.kind == CREATE_SESSION && header.postLength > 0 {
        ok := ReadUpload(start, header.postLength);
      } else if header.postLength > 0 {
        ok := ReadExact(header.postLength, buffer);
      } else {
        ok := true;
      }
    }

    /** Reads the parts of an accepted frame: the JSON into the buffer, the rest after it or into a temporary file. */
    method DoReadBody(start: nat, header: Header) returns (ok: bool)
      requires Valid() && uploadedModelPath == "" && buffer.items == []
      requires position == start + HEADER_SIZE && Accepts(server, header)
      modifies this, buffer
      ensures Valid() && requests == old(requests)
      ensures replies == old(replies) +
                         (if Gather(peer, start + HEADER_SIZE, header.jsonLength).1
                          then UploadRefusal(server, start, header) else [])
      ensures ok == ReadsBody(server, peer, start, header)
      ensures ok ==>
                && position == start + HEADER_SIZE + header.jsonLength + header.postLength
                && WereRead(server, peer.stream, start, header, uploadedModelPath, buffer.items, files)
    {
      ok := ReadExact(header.jsonLength, buffer);
      BodyInParts(server, peer, start, header, position, ok);
      if !ok {
        return;
      }
      ok := DoReadPost(start, header);
    }

    /** Reads one frame. Whatever way it returns, the files are accounted for. */
    method DoRead() returns (req: Option<Header>)
      requires Valid() && SafeLimits(server)
      modifies this, buffer
      ensures Valid()
      ensures requests == old(requests)
      ensures replies == old(replies) + (if req.None? then Refusal(server, peer, old(position)) else [])
      ensures req.Some? <==> ReadFrame(server, peer, old(position)).Some?
      ensures req.Some? ==>
                var r := ReadFrame(server, peer, old(position)).value;
                position == After(old(position), r) && Holds(req.value, r)
    {
      buffer.items := [];
      CleanupUpload();

      var start := position;
      req := DoReadHeader();
      if req.None? {
        return;
      }
      var ok := DoReadBody(start, req.value);
      if !ok {
        return None;
      }
      PartsOfFrame(server, peer.stream, start, req.value, uploadedModelPath, buffer.items, files);
      FrameOfParts(server, peer, start, req.value);
    }

    /** The buffer and the temporary file hold the parts of `r`, where the task will look for them. */
    ghost predicate Holds(h: Header, r: Request)
      reads this, buffer
    {
      AreParts(h, r, uploadedModelPath, buffer.items, files)
    }

    /** The request as the task receives it: slices of the buffer, or the path of the temporary file. */
    method TakeRequest(header: Header, ghost r: Request) returns (request: Request)
      requires Valid() && Holds(header, r)
      ensures request == r
    {
      var json := buffer.items[..header.jsonLength];
      assert buffer.items[..|r.json|] == r.json;
      if uploadedModelPath != "" {
        request := Request(header.kind, json, OnDisk(uploadedModelPath, files[uploadedModelPath]));
      } else {
        var post := buffer.items[header.jsonLength..header.jsonLength + header.postLength];
        assert r.body.InMemory? ==> post == r.body.bytes;
        request := Request(header.kind, json, InMemory(post));
      }
    }

    /** Reads one frame and hands its request to a task. */
    method ReadRequest() returns (req: Option<Header>)
      requires Valid() && SafeLimits(server)
      modifies this, buffer
      ensures Valid()
      ensures match ReadFrame(server, peer, old(position))
              case None =>
                req == None && requests == old(requests) && replies == old(replies) + Refusal(server, peer, old(position))
              case Some(r) =>
                && req.Some? && req.value.kind == r.kind && position == After(old(position), r)
                && requests == old(requests) + [r] && replies == old(replies)
    {
      ghost var start := position;
      req := DoRead();
      if req.Some? {
        var request := TakeRequest(req.value, ReadFrame(server, peer, start).value);
        requests := requests + [request];
      }
    }

    /** What the task of the frame at `start` came to is written; an exception does not end the session. */
    method Answer(start: nat, kind: int) returns (going: bool)
      modifies this`replies
      ensures replies == old(replies) + [Reply(server, start, kind)] && going == GoesOn(server.outcome(start))
      ensures going <==> !(server.outcome(start).Replied? && !server.outcome(start).written)
    {
      match server.outcome(start) {
        case Replied(size, written) =>
          going := DoWrite(ResponseHeader(kind, size), written);
        case Failed =>
          SendError(server.errorSize(start));
          going := true;
      }
    }

    /** One turn of the read loop; false when it breaks. */
    method ServeOne() returns (going: bool)
      requires Valid() && SafeLimits(server)
      modifies this, buffer
      ensures Valid() && (going ==> old(position) < position)
      ensures requests + (if going then Serve(server, peer, position) else []) ==
              old(requests) + Serve(server, peer, old(position))
      ensures replies + (if going then Replies(server, peer, position) else []) ==
              old(replies) + Replies(server, peer, old(position))
    {
      var start := position;
      ServeUnfolds(server, peer, start, requests, replies);
      var req := ReadRequest();
      if req.None? {
        return false;
      }
      going := Answer(start, req.value.kind);
    }

    /** Serves requests until a frame cannot be read or a reply cannot be written. */
    method Run()
      requires Valid() && SafeLimits(server)
      requires position == 0 && requests == [] && replies == []
      modifies this, buffer
      ensures Valid()
      ensures requests == Serve(server, peer, 0) && replies == Replies(server, peer, 0)
      ensures exists starts :: IsChain(server, peer, 0, starts) && Answered(server, peer, starts, requests, replies)
    {
      SessionsAreChains(server, peer, 0);
      EveryRequestIsAnswered(server, peer, 0);
      var going := true;
      while going
        invariant Valid()
        invariant requests + (if going then Serve(server, peer, position) else []) == Serve(server, peer, 0)
        invariant replies + (if going then Replies(server, peer, position) else []) == Replies(server, peer, 0)
        decreases going, |peer.stream| - position
      {
        going := ServeOne();
      }
    }

    /** The destructor. */
    method Destroy()
      requires Valid()
      modifies this`uploadedModelPath, this`files
      ensures files - named == original - named
      ensures forall path :: path in named && path in files ==> !server.removes(path)
    {
      CleanupUpload();
    }
  }

  /** After the JSON part, the body arrives iff the rest does and an upload can be stored. */
  lemma BodyInParts(server: Server, peer: Peer, start: nat, h: Header, afterJson: nat, json: bool)
    requires start + HEADER_SIZE <= |peer.stream| && Accepts(server, h)
    requires (afterJson, json) == Gather(peer, start + HEADER_SIZE, h.jsonLength)
    ensures !json ==> !ReadsBody(server, peer, start, h)
    ensures json ==>
              && afterJson == start + HEADER_SIZE + h.jsonLength
              && (ReadsBody(server, peer, start, h) <==>
                  Gather(peer, afterJson, h.postLength).1 &&
                  (IsUpload(h) ==> server.opens(start) && server.stores(start)))
    ensures json && Gather(peer, afterJson, h.postLength).1 ==>
              && afterJson + h.postLength <= |peer.stream|
              && Gather(peer, afterJson, h.postLength).0 == afterJson + h.postLength
  {
    GatherIsExact(peer, start + HEADER_SIZE, h.jsonLength);
    GatherIsExact(peer, afterJson, h.postLength);
  }

  /** The buffer, and for an upload the file at `path`, hold the parts of `r`. */
  ghost predicate AreParts(h: Header, r: Request, path: string, buffer: seq<Byte>, files: map<string, seq<Byte>>) {
    && h.kind == r.kind && h.jsonLength == |r.json|
    && (path != "" <==> h.kind == CREATE_SESSION && h.postLength > 0)
    && match r.body
       case OnDisk(name, contents) =>
         path == name != "" && buffer == r.json && path in files && files[path] == contents
       case InMemory(bytes) => path == "" && buffer == r.json + bytes && h.postLength == |bytes|
  }

  /** The buffer, and for an upload the file at `path`, hold the bytes after the header at `start`. */
  ghost predicate WereRead(server: Server, stream: seq<Byte>, start: nat, h: Header,
                           path: string, buffer: seq<Byte>, files: map<string, seq<Byte>>)
    requires h.jsonLength >= 0 && h.postLength >= 0
  {
    var json := start + HEADER_SIZE;
    var post := json + h.jsonLength;
    && post + h.postLength <= |stream|
    && var part := stream[post..post + h.postLength];
       if IsUpload(h)
       then buffer == stream[json..post] && path == UploadPath(server, start) && path in files && files[path] == part
       else buffer == stream[json..post] + part && path == ""
  }

  lemma PartsOfFrame(server: Server, stream: seq<Byte>, start: nat, h: Header,
                     path: string, buffer: seq<Byte>, files: map<string, seq<Byte>>)
    requires h.jsonLength >= 0 && h.postLength >= 0 && WereRead(server, stream, start, h, path, buffer, files)
    ensures start + HEADER_SIZE + h.jsonLength + h.postLength <= |stream|
    ensures AreParts(h, RequestOf(server, stream, start, h), path, buffer, files)
  {
  }

  lemma GatherStep(peer: Peer, pos: nat, remaining: nat, n: nat)
    requires pos <= |peer.stream| && remaining > 0
    requires n == ReadSome(peer, pos, if MAX_RECV_BUF_LENGTH < remaining then MAX_RECV_BUF_LENGTH else remaining)
    ensures Gather(peer, pos, remaining) == if n == 0 then (pos, false) else Gather(peer, pos + n, remaining - n)
  {
  }

  /** A frame whose header and body are read is the request. */
  lemma FrameOfParts(server: Server, peer: Peer, pos: nat, h: Header)
    requires pos <= |peer.stream| && ReadHeader(server, peer, pos) == Some(h) && ReadsBody(server, peer, pos, h)
    ensures pos + HEADER_SIZE + h.jsonLength + h.postLength <= |peer.stream|
    ensures var r := RequestOf(server, peer.stream, pos, h);
            && ReadFrame(server, peer, pos) == Some(r)
            && After(pos, r) == pos + HEADER_SIZE + h.jsonLength + h.postLength
  {
    BodyIsInStream(server, peer, pos, h);
  }

  lemma MoreNamed<T>(files: map<string, T>, original: map<string, T>, named: set<string>, path: string)
    requires files - named == original - named
    ensures files - (named + {path}) == original - (named + {path})
  {
    assert files - (named + {path}) == (files - named) - {path};
    assert original - (named + {path}) == (original - named) - {path};
  }

  /** A signed 64-bit addition. */
  function Sum(a: int, b: int): int
    requires IsInt64(a + b)
  {
    a + b
  }

  lemma KindOfFrame(server: Server, peer: Peer, pos: nat)
    requires pos <= |peer.stream| && ReadFrame(server, peer, pos).Some?
    ensures IsInt16(ReadFrame(server, peer, pos).value.kind)
  {
    var bytes := peer.stream[pos..pos + HEADER_SIZE];
    HtonsInRange(Unpacked(bytes).kind);
  }

  /**
   * A whole connection: whatever the peer sends, in whatever pieces, a temporary file of the session outlives it only if
   * the file system does not let it be removed.
   */
  method ClientConnected(server: Server, peer: Peer, files: map<string, seq<Byte>>)
    returns (requests: seq<Request>, filesAfter: map<string, seq<Byte>>,
             ghost replies: seq<Header>, ghost named: set<string>)
    requires SafeLimits(server) && "" !in files
    ensures requests == Serve(server, peer, 0) && replies == Replies(server, peer, 0)
    ensures exists starts :: IsChain(server, peer, 0, starts) && Answered(server, peer, starts, requests, replies)
    ensures filesAfter - named == files - named && forall path :: path in named ==> IsUploadPath(server, path)
    ensures forall path :: path in named && path in filesAfter ==> !server.removes(path)
    ensures (forall path :: IsUploadPath(server, path) ==> path !in files && server.removes(path)) ==> filesAfter == files
  {
    var session := new Session(server, peer, files);
    session.Run();
    requests, replies := session.requests, session.replies;
    session.Destroy();
    filesAfter, named := session.files, session.named;
    if forall path :: IsUploadPath(server, path) ==> path !in files && server.removes(path) {
      assert filesAfter - named == filesAfter && files - named == files;
    }
  }
}
