/** Frames on a TCP stream: a pure splitter, and the same stream read in the chunks a socket happens to deliver. */
module Framing {
  import opened Basics
  import opened HeaderCodec

  const CREATE_SESSION := 1
  const MAX_RECV_BUF_LENGTH := 1024 * 1024 * 4

  type Size = n: int | 0 <= n < TWO_63

  /** What a task came to: a reply of some size, written or not, or an exception. */
  datatype Outcome = Replied(size: Size, written: bool) | Failed

  /** The configuration, and what tasks and the file system will do for the frame that starts at a stream position. */
  datatype Server = Server(
    payloadLimit: int,
    uploadLimit: int,
    uploadDir: string,
    outcome: nat -> Outcome,
    opens: nat -> bool,
    stores: nat -> bool,
    removes: string -> bool,
    uniqueName: nat -> string,
    errorSize: nat -> Size)

  /**
   * What the peer sends in all, and how much of it one read started at a position can get: zero for an error.
   * A session reads at each position at most once, so this covers every schedule of chunks.
   */
  datatype Peer = Peer(stream: seq<Byte>, available: nat -> nat)

  datatype Body = InMemory(bytes: seq<Byte>) | OnDisk(path: string, contents: seq<Byte>)

  datatype Request = Request(kind: int, json: seq<Byte>, body: Body)

  // ---------------------------------------------------------------- headers

  function PostLimit(server: Server, h: Header): int {
    if h.kind == CREATE_SESSION then server.uploadLimit else server.payloadLimit
  }

  predicate WithinBounds(server: Server, h: Header) {
    && h.jsonLength >= 0 && h.postLength >= 0
    && h.jsonLength <= server.payloadLimit
    && h.postLength <= PostLimit(server, h)
  }

  predicate Accepts(server: Server, h: Header) {
    WithinBounds(server, h) && h.length == h.jsonLength + h.postLength
  }

  /** Limits under which the sum of two accepted lengths stays a signed 64-bit number. */
  predicate SafeLimits(server: Server) {
    server.payloadLimit >= 0 ==>
      && 2 * server.payloadLimit < TWO_63
      && (server.uploadLimit >= 0 ==> server.payloadLimit + server.uploadLimit < TWO_63)
  }

  /** The length comparison cannot overflow for any header exactly under these limits. */
  lemma SumNeverOverflows(server: Server)
    requires IsInt64(server.payloadLimit) && IsInt64(server.uploadLimit)
    ensures SafeLimits(server) <==>
            forall h :: InRange(h) && WithinBounds(server, h) ==> IsInt64(h.jsonLength + h.postLength)
  {
    if !SafeLimits(server) {
      var kind := if 2 * server.payloadLimit >= TWO_63 then 0 else CREATE_SESSION;
      var h := Header(kind, 0, server.payloadLimit, if kind == 0 then server.payloadLimit else server.uploadLimit);
      assert InRange(h) && WithinBounds(server, h) && !IsInt64(h.jsonLength + h.postLength);
    }
  }

  /** A second part beyond the payload limit is accepted for the creation of a session, kind 1, and for no other kind. */
  lemma LimitsByKind(server: Server, h: Header)
    requires 0 <= h.jsonLength <= server.payloadLimit && server.payloadLimit < h.postLength <= server.uploadLimit
    requires h.length == h.jsonLength + h.postLength
    ensures Accepts(server, h) <==> h.kind == 1
  {
  }

  predicate IsUpload(h: Header) {
    h.kind == CREATE_SESSION && h.postLength > 0
  }

  function UploadPath(server: Server, pos: nat): (path: string)
    ensures path != ""
  {
    server.uploadDir + "/" + server.uniqueName(pos)
  }

  /** A name that an upload on some frame would be stored under. */
  ghost predicate IsUploadPath(server: Server, path: string) {
    exists pos: nat :: path == UploadPath(server, pos)
  }

  // ---------------------------------------------------------------- the pure splitter

  /** The complete, acceptable frame that starts at `pos`, if there is one and an upload in it can be stored. */
  function FrameAt(server: Server, stream: seq<Byte>, pos: nat): Option<Request>
  {
    if pos + HEADER_SIZE > |stream| then None
    else
      var h := Received(stream[pos..pos + HEADER_SIZE]);
      if !Accepts(server, h) || pos + HEADER_SIZE + h.length > |stream| then None
      else if IsUpload(h) && !(server.opens(pos) && server.stores(pos)) then None
      else Some(RequestOf(server, stream, pos, h))
  }

  function RequestOf(server: Server, stream: seq<Byte>, pos: nat, h: Header): Request
    requires h.jsonLength >= 0 && h.postLength >= 0
    requires pos + HEADER_SIZE + h.jsonLength + h.postLength <= |stream|
  {
    var json := pos + HEADER_SIZE;
    var post := json + h.jsonLength;
    var bytes := stream[post..post + h.postLength];
    Request(h.kind, stream[json..post], if IsUpload(h) then OnDisk(UploadPath(server, pos), bytes) else InMemory(bytes))
  }

  /** The two parts of a request are the bytes after its header, and only an upload is stored on disk. */
  lemma PartsAreConsecutive(server: Server, stream: seq<Byte>, pos: nat)
    requires FrameAt(server, stream, pos).Some?
    ensures pos + HEADER_SIZE <= |stream|
    ensures var r := FrameAt(server, stream, pos).value;
            var h := Received(stream[pos..pos + HEADER_SIZE]);
            var bytes := if r.body.OnDisk? then r.body.contents else r.body.bytes;
            && h.length >= 0 && pos + HEADER_SIZE + h.length <= |stream|
            && r.kind == h.kind && |r.json| == h.jsonLength && |bytes| == h.postLength
            && r.json + bytes == stream[pos + HEADER_SIZE..pos + HEADER_SIZE + h.length]
            && (r.body.OnDisk? <==> h.kind == 1 && h.postLength > 0)
  {
    var h := Received(stream[pos..pos + HEADER_SIZE]);
    var json := pos + HEADER_SIZE;
    Adjacent(stream, json, json + h.jsonLength, json + h.jsonLength + h.postLength);
  }

  lemma Adjacent<T>(s: seq<T>, i: nat, j: nat, k: nat)
    requires i <= j <= k <= |s|
    ensures s[i..j] + s[j..k] == s[i..k]
  {
  }

  function BodySize(r: Request): nat {
    |r.json| + (if r.body.OnDisk? then |r.body.contents| else |r.body.bytes|)
  }

  /** Where the splitter goes on after the frame at `pos`. */
  function After(pos: nat, r: Request): nat {
    pos + HEADER_SIZE + BodySize(r)
  }

  /** A session goes on after an exception, and after a reply it could write. */
  predicate GoesOn(o: Outcome) {
    o.Replied? ==> o.written
  }

  /** The requests of a stream, up to the first frame that is invalid, truncated or cannot be stored or answered. */
  function Split(server: Server, stream: seq<Byte>, pos: nat): seq<Request>
    decreases |stream| - pos
  {
    match FrameAt(server, stream, pos)
    case None => []
    case Some(r) =>
      [r] + if GoesOn(server.outcome(pos)) then Split(server, stream, After(pos, r)) else []
  }

  // ---------------------------------------------------------------- reading in chunks

  /** How many bytes one read_some of at most `max` bytes gets; zero at the end of the stream or on an error. */
  function ReadSome(peer: Peer, pos: nat, max: nat): (n: nat)
    requires pos <= |peer.stream|
    ensures n <= max && pos + n <= |peer.stream|
  {
    var limit := if max <= |peer.stream| - pos then max else |peer.stream| - pos;
    if peer.available(pos) <= limit then peer.available(pos) else limit
  }

  /** Where reading `length` bytes chunk by chunk stops, and whether it got them all. */
  function Gather(peer: Peer, pos: nat, length: int): (r: (nat, bool))
    requires pos <= |peer.stream|
    ensures pos <= r.0 <= |peer.stream|
    decreases length
  {
    if length <= 0 then (pos, true)
    else
      var n := ReadSome(peer, pos, if MAX_RECV_BUF_LENGTH < length then MAX_RECV_BUF_LENGTH else length);
      if n == 0 then (pos, false) else Gather(peer, pos + n, length - n)
  }

  /** However the bytes arrive, reading succeeds only on exactly the next `length` of them. */
  lemma {:induction false} GatherIsExact(peer: Peer, pos: nat, length: nat)
    requires pos <= |peer.stream|
    ensures Gather(peer, pos, length).1 ==> Gather(peer, pos, length).0 == pos + length
    ensures !Gather(peer, pos, length).1 ==> Gather(peer, pos, length).0 < pos + length
    decreases length
  {
    if length > 0 {
      var n := ReadSome(peer, pos, if MAX_RECV_BUF_LENGTH < length then MAX_RECV_BUF_LENGTH else length);
      if n != 0 {
        GatherIsExact(peer, pos + n, length - n);
      }
    }
  }

  /** Every read delivers at least a byte while there is one. */
  ghost predicate NoReadErrors(peer: Peer) {
    forall pos: nat :: peer.available(pos) >= 1
  }

  lemma {:induction false} GatherCompletes(peer: Peer, pos: nat, length: nat)
    requires pos <= |peer.stream| && NoReadErrors(peer)
    ensures Gather(peer, pos, length).1 <==> pos + length <= |peer.stream|
    decreases length
  {
    if length > 0 {
      var n := ReadSome(peer, pos, if MAX_RECV_BUF_LENGTH < length then MAX_RECV_BUF_LENGTH else length);
      assert peer.available(pos) >= 1;
      if n != 0 {
        GatherCompletes(peer, pos + n, length - n);
      }
    }
  }

  /** The header read at `pos` by a single read, if it arrives whole and is acceptable. */
  function ReadHeader(server: Server, peer: Peer, pos: nat): (header: Option<Header>)
    requires pos <= |peer.stream|
    ensures header.Some? ==> pos + HEADER_SIZE <= |peer.stream| && Accepts(server, header.value)
  {
    if ReadSome(peer, pos, HEADER_SIZE) < HEADER_SIZE then None
    else
      var h := Received(peer.stream[pos..pos + HEADER_SIZE]);
      if Accepts(server, h) then Some(h) else None
  }

  /** Whether the two parts of the frame at `pos` arrive, chunk by chunk, and an upload in it can be stored. */
  predicate ReadsBody(server: Server, peer: Peer, pos: nat, h: Header)
    requires pos + HEADER_SIZE <= |peer.stream|
  {
    var (afterJson, json) := Gather(peer, pos + HEADER_SIZE, h.jsonLength);
    && json
    && (IsUpload(h) ==> server.opens(pos))
    && Gather(peer, afterJson, h.postLength).1
    && (IsUpload(h) ==> server.stores(pos))
  }

  lemma BodyIsInStream(server: Server, peer: Peer, pos: nat, h: Header)
    requires pos + HEADER_SIZE <= |peer.stream| && h.jsonLength >= 0 && h.postLength >= 0
    requires ReadsBody(server, peer, pos, h)
    ensures var post := pos + HEADER_SIZE + h.jsonLength;
            && post + h.postLength <= |peer.stream|
            && Gather(peer, pos + HEADER_SIZE, h.jsonLength) == (post, true)
            && Gather(peer, post, h.postLength) == (post + h.postLength, true)
  {
    GatherIsExact(peer, pos + HEADER_SIZE, h.jsonLength);
    GatherIsExact(peer, pos + HEADER_SIZE + h.jsonLength, h.postLength);
  }

  /** The frame read at `pos`: one read for the header, then the body in chunks. */
  function ReadFrame(server: Server, peer: Peer, pos: nat): Option<Request>
    requires pos <= |peer.stream|
  {
    match ReadHeader(server, peer, pos)
    case None => None
    case Some(h) =>
      if ReadsBody(server, peer, pos, h) then
        BodyIsInStream(server, peer, pos, h);
        Some(RequestOf(server, peer.stream, pos, h))
      else None
  }

  /** The requests a session makes of the stream from `pos` on. */
  function Serve(server: Server, peer: Peer, pos: nat): seq<Request>
    requires pos <= |peer.stream|
    decreases |peer.stream| - pos
  {
    match ReadFrame(server, peer, pos)
    case None => []
    case Some(r) =>
      ReadFrameIsFrame(server, peer, pos);
      [r] + if GoesOn(server.outcome(pos)) then Serve(server, peer, After(pos, r)) else []
  }

  /** A frame that could be read is the frame the stream holds there, and takes exactly 26 bytes and its two parts. */
  lemma ReadFrameIsFrame(server: Server, peer: Peer, pos: nat)
    requires pos <= |peer.stream| && ReadFrame(server, peer, pos).Some?
    ensures ReadFrame(server, peer, pos) == FrameAt(server, peer.stream, pos)
    ensures var r := ReadFrame(server, peer, pos).value;
            var h := Received(peer.stream[pos..pos + HEADER_SIZE]);
            BodySize(r) == h.length && After(pos, r) <= |peer.stream|
  {
    BodyIsInStream(server, peer, pos, ReadHeader(server, peer, pos).value);
  }

  /** Without read errors, the only way to miss a frame is a header that does not arrive in one piece. */
  lemma FrameIsRead(server: Server, peer: Peer, pos: nat)
    requires pos <= |peer.stream| && NoReadErrors(peer)
    requires FrameAt(server, peer.stream, pos).Some?
    ensures ReadFrame(server, peer, pos).Some? <==> peer.available(pos) >= HEADER_SIZE
  {
    var h := Received(peer.stream[pos..pos + HEADER_SIZE]);
    if peer.available(pos) >= HEADER_SIZE {
      GatherCompletes(peer, pos + HEADER_SIZE, h.jsonLength);
      var afterJson := Gather(peer, pos + HEADER_SIZE, h.jsonLength).0;
      GatherIsExact(peer, pos + HEADER_SIZE, h.jsonLength);
      GatherCompletes(peer, afterJson, h.postLength);
    }
  }

  /** Under every schedule, errors and short headers included, the requests are a prefix of the splitter's. */
  lemma {:induction false} ServeIsPrefix(server: Server, peer: Peer, pos: nat)
    requires pos <= |peer.stream|
    ensures Serve(server, peer, pos) <= Split(server, peer.stream, pos)
    decreases |peer.stream| - pos
  {
    var frame := ReadFrame(server, peer, pos);
    if frame.Some? {
      ReadFrameIsFrame(server, peer, pos);
      if GoesOn(server.outcome(pos)) {
        ServeIsPrefix(server, peer, After(pos, frame.value));
      }
    }
  }

  /** Every frame of the splitter starts where a whole header can be read at once. */
  ghost predicate WholeHeaders(server: Server, peer: Peer, pos: nat)
    decreases |peer.stream| - pos
  {
    match FrameAt(server, peer.stream, pos)
    case None => true
    case Some(r) =>
      && peer.available(pos) >= HEADER_SIZE
      && (GoesOn(server.outcome(pos)) ==> WholeHeaders(server, peer, After(pos, r)))
  }

  lemma WholeFrame(server: Server, peer: Peer, pos: nat)
    requires pos <= |peer.stream| && NoReadErrors(peer)
    requires FrameAt(server, peer.stream, pos).Some? && peer.available(pos) >= HEADER_SIZE
    ensures var r := FrameAt(server, peer.stream, pos).value;
            var next := After(pos, r);
            && next <= |peer.stream|
            && Serve(server, peer, pos) == [r] + (if GoesOn(server.outcome(pos)) then Serve(server, peer, next) else [])
  {
    FrameIsRead(server, peer, pos);
    ReadFrameIsFrame(server, peer, pos);
  }

  lemma MissedFrame(server: Server, peer: Peer, pos: nat)
    requires pos <= |peer.stream| && NoReadErrors(peer)
    requires FrameAt(server, peer.stream, pos).Some? && peer.available(pos) < HEADER_SIZE
    ensures Serve(server, peer, pos) == [] && Split(server, peer.stream, pos) != []
  {
    FrameIsRead(server, peer, pos);
  }

  /** The chunked session serves what the splitter finds, exactly when no frame's header arrives in pieces. */
  lemma {:induction false} ServeRefinesSplit(server: Server, peer: Peer, pos: nat)
    requires pos <= |peer.stream| && NoReadErrors(peer)
    ensures Serve(server, peer, pos) == Split(server, peer.stream, pos) <==> WholeHeaders(server, peer, pos)
    decreases |peer.stream| - pos
  {
    var frame := FrameAt(server, peer.stream, pos);
    if frame.None? {
      NothingToServe(server, peer, pos);
    } else if peer.available(pos) < HEADER_SIZE {
      MissedFrame(server, peer, pos);
    } else {
      WholeFrame(server, peer, pos);
      var next := After(pos, frame.value);
      if GoesOn(server.outcome(pos)) {
        ServeRefinesSplit(server, peer, next);
        SameTail(frame.value, Serve(server, peer, next), Split(server, peer.stream, next));
      }
    }
  }

  lemma NothingToServe(server: Server, peer: Peer, pos: nat)
    requires pos <= |peer.stream| && FrameAt(server, peer.stream, pos).None?
    ensures Serve(server, peer, pos) == [] && Split(server, peer.stream, pos) == []
  {
    if ReadFrame(server, peer, pos).Some? {
      ReadFrameIsFrame(server, peer, pos);
    }
  }

  lemma SameTail(r: Request, a: seq<Request>, b: seq<Request>)
    ensures [r] + a == [r] + b <==> a == b
  {
    assert ([r] + a)[1..] == a && ([r] + b)[1..] == b;
  }
}
