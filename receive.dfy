/**
 * The receiving side of mesh_pulse/core/transfer.py: `FileServer._receive_file`
 * reads one encrypted header frame and `ceil(filesize / CHUNK_SIZE)` encrypted
 * chunk frames from a connection, writes the plaintext to the receive
 * directory and checks its SHA-256 digest against the header's.
 *
 * `ReceiveFrom` states, as a function of the bytes the peer sends, what one
 * connection leaves behind; `FileServer.ReceiveFile` is proved to do exactly
 * that, reading the socket frame by frame.
 */
module Receive {
  import opened Wrappers
  import opened Framing
  import opened Header
  import opened Records

  /** What the chunk loop leaves: the plaintext written, the error that stopped it, the unread bytes. */
  datatype ChunkRun = ChunkRun(written: Bytes, failure: Option<TransferError>, rest: Bytes)

  /** A run with `prior` written before it. */
  function After(prior: Bytes, run: ChunkRun): ChunkRun
  {
    run.(written := prior + run.written)
  }

  /** Writing `a` then `b` before a run is writing `a + b` before it. */
  lemma AfterAfter(a: Bytes, b: Bytes, run: ChunkRun)
    ensures After(a + b, run) == After(a, After(b, run))
  {
    assert a + b + run.written == a + (b + run.written);
  }

  /** A pass that fails after `content` was written ends the run with what was written. */
  lemma StoppedAfter(content: Bytes, pass: ChunkRun, e: TransferError, rest: Bytes, whole: ChunkRun)
    requires After(content, pass) == whole && pass == ChunkRun([], Some(e), rest)
    ensures ChunkRun(content, Some(e), rest) == whole
  {
    assert content + [] == content;
  }

  /** A pass that writes `p` after `content` leaves the remaining passes to write the rest. */
  lemma WrittenAfter(content: Bytes, p: Bytes, pass: ChunkRun, remaining: ChunkRun, whole: ChunkRun)
    requires After(content, pass) == whole && pass == After(p, remaining)
    ensures After(content + p, remaining) == whole
  {
    AfterAfter(content, p, remaining);
  }

  /**
   * The `for _ in range(count)` loop on a stream holding `s`: each pass reads a
   * frame, decrypts it and appends the plaintext; the first failure stops it.
   */
  function ReadChunks(s: Bytes, count: nat, c: Crypto): (run: ChunkRun)
    ensures run.failure.Some? ==> run.failure.value.FrameFailed? || run.failure.value == InvalidToken
    ensures count == 0 ==> run == ChunkRun([], None, s)
    decreases count, 0
  {
    if count == 0 then ChunkRun([], None, s)
    else ReadChunksAfter(UnpackFrame(s, DEFAULT_MAX_FRAME), count - 1, c)
  }

  /** A pass of the loop on the frame it has just read, then `left` further passes. */
  function ReadChunksAfter(frame: Read<Result<Bytes, FrameError>>, left: nat, c: Crypto): (run: ChunkRun)
    ensures run.failure.Some? ==> run.failure.value.FrameFailed? || run.failure.value == InvalidToken
    decreases left, 1
  {
    match frame.result
    case Err(e) => ChunkRun([], Some(FrameFailed(e)), frame.rest)
    case Ok(token) =>
      match c.decrypt(token)
      case None => ChunkRun([], Some(InvalidToken), frame.rest)
      case Some(plain) => After(plain, ReadChunks(frame.rest, left, c))
  }

  /** A pass of the chunk loop that reads a bad frame stops the loop with its error. */
  lemma ReadChunksBadFrame(s: Bytes, count: nat, c: Crypto, e: FrameError, rest: Bytes)
    requires count >= 1 && UnpackFrame(s, DEFAULT_MAX_FRAME) == Read(Err(e), rest)
    ensures ReadChunks(s, count, c) == ChunkRun([], Some(FrameFailed(e)), rest)
  {
  }

  /** A pass of the chunk loop that reads a token it cannot decrypt stops the loop. */
  lemma ReadChunksBadToken(s: Bytes, count: nat, c: Crypto, token: Bytes, rest: Bytes)
    requires count >= 1 && UnpackFrame(s, DEFAULT_MAX_FRAME) == Read(Ok(token), rest)
    requires c.decrypt(token).None?
    ensures ReadChunks(s, count, c) == ChunkRun([], Some(InvalidToken), rest)
  {
  }

  /** A pass of the chunk loop that decrypts a chunk writes it and goes on. */
  lemma ReadChunksGood(s: Bytes, count: nat, c: Crypto, token: Bytes, rest: Bytes, plain: Bytes)
    requires count >= 1 && UnpackFrame(s, DEFAULT_MAX_FRAME) == Read(Ok(token), rest)
    requires c.decrypt(token) == Some(plain)
    ensures ReadChunks(s, count, c) == After(plain, ReadChunks(rest, count - 1, c))
  {
  }

  /**
   * The frames of `tokens`, each decrypting to the matching plaintext and
   * within the frame limit, are read back as the plaintexts concatenated;
   * any passes left over then read what follows them.
   */
  lemma {:induction false} ReadChunksOfFrames(tokens: seq<Bytes>, plains: seq<Bytes>, rest: Bytes, count: nat, more: nat, c: Crypto)
    requires |tokens| == |plains| && count == |tokens| + more
    requires forall i :: 0 <= i < |tokens| ==> 1 <= |tokens[i]| <= DEFAULT_MAX_FRAME
    requires forall i :: 0 <= i < |tokens| ==> c.decrypt(tokens[i]) == Some(plains[i])
    ensures ReadChunks(Frames(tokens) + rest, count, c) == After(Concat(plains), ReadChunks(rest, more, c))
    decreases |tokens|
  {
    var run := ReadChunks(rest, more, c);
    if tokens == [] {
      assert count == more && Frames(tokens) + rest == rest;
      assert [] + run.written == run.written;
      assert After(Concat(plains), run) == run;
    } else {
      var later := ReadChunks(Frames(tokens[1..]) + rest, count - 1, c);
      ReadChunksOfFrames(tokens[1..], plains[1..], rest, count - 1, more, c);
      assert later == After(Concat(plains[1..]), run);
      ReadChunksFirstFrame(tokens, plains[0], rest, count, c);
      assert ReadChunks(Frames(tokens) + rest, count, c) == After(plains[0], later);
      assert Concat(plains) == plains[0] + Concat(plains[1..]);
      AfterAfter(plains[0], Concat(plains[1..]), run);
    }
  }

  /** A pass of the chunk loop over a run of frames reads the first and leaves the others. */
  lemma ReadChunksFirstFrame(tokens: seq<Bytes>, plain: Bytes, rest: Bytes, count: nat, c: Crypto)
    requires tokens != [] && count >= 1
    requires forall i :: 0 <= i < |tokens| ==> 1 <= |tokens[i]| <= DEFAULT_MAX_FRAME
    requires c.decrypt(tokens[0]) == Some(plain)
    ensures ReadChunks(Frames(tokens) + rest, count, c) == After(plain, ReadChunks(Frames(tokens[1..]) + rest, count - 1, c))
  {
    FirstFrame(tokens, rest);
    ReadChunksGood(Frames(tokens) + rest, count, c, tokens[0], Frames(tokens[1..]) + rest, plain);
  }

  /** The first frame of a run of frames is read whole, leaving the others. */
  lemma FirstFrame(tokens: seq<Bytes>, rest: Bytes)
    requires tokens != []
    requires forall i :: 0 <= i < |tokens| ==> 1 <= |tokens[i]| <= DEFAULT_MAX_FRAME
    ensures UnpackFrame(Frames(tokens) + rest, DEFAULT_MAX_FRAME) == Read(Ok(tokens[0]), Frames(tokens[1..]) + rest)
  {
    assert Frames(tokens) + rest == PackFrame(tokens[0]) + (Frames(tokens[1..]) + rest);
    UnpackPackedFrame(tokens[0], Frames(tokens[1..]) + rest, DEFAULT_MAX_FRAME);
  }

  /** The frames of a list of tokens, back to back. */
  function Frames(tokens: seq<Bytes>): (wire: Bytes)
    requires forall i :: 0 <= i < |tokens| ==> |tokens[i]| < LENGTH_LIMIT
    decreases |tokens|
  {
    if tokens == [] then [] else PackFrame(tokens[0]) + Frames(tokens[1..])
  }

  /** Appending a token appends its frame. */
  lemma {:induction false} FramesSnoc(tokens: seq<Bytes>, token: Bytes)
    requires forall i :: 0 <= i < |tokens| ==> |tokens[i]| < LENGTH_LIMIT
    requires |token| < LENGTH_LIMIT
    ensures Frames(tokens + [token]) == Frames(tokens) + PackFrame(token)
    decreases |tokens|
  {
    if tokens == [] {
      assert [token][1..] == [];
    } else {
      assert (tokens + [token])[1..] == tokens[1..] + [token];
      FramesSnoc(tokens[1..], token);
    }
  }

  /** Whether `open(receive_dir / name, "wb")` opens the receive directory or its parent. */
  predicate NamesDirectory(name: string)
  {
    name == "" || name == ".."
  }

  /** What one connection leaves behind. */
  datatype Outcome =
    | Refused
      // the header frame, its token, its text or its fields were bad: no record
    | Recorded(header: Header, fileOpened: bool, run: ChunkRun, status: Status, error: Option<TransferError>)
      // a record was registered for `header`; `fileOpened` says whether the destination file was created

  datatype Reception = Reception(outcome: Outcome, rest: Bytes)

  /** The header stage: one frame, decrypted, decoded as UTF-8 and parsed. */
  function ReceiveHeader(s: Bytes, c: Crypto): (r: Read<Option<Header>>)
    // Exactly one frame is consumed, whether or not it makes a header.
    ensures r.rest == UnpackFrame(s, DEFAULT_MAX_FRAME).rest
    ensures r.result.Some? ==> UnpackFrame(s, DEFAULT_MAX_FRAME).result.Ok?
    // The name of an accepted header is a single path component.
    ensures r.result.Some? ==> SLASH !in r.result.value.filename && r.result.value.filename != "."
  {
    var frame := UnpackFrame(s, DEFAULT_MAX_FRAME);
    var header :=
      match frame.result
      case Err(_) => None
      case Ok(token) =>
        match c.decrypt(token)
        case None => None
        case Some(raw) =>
          match c.decodeText(raw)
          case None => None
          case Some(text) =>
            match ParseHeader(text)
            case Err(_) => None
            case Ok(h) => Some(h);
    Read(header, frame.rest)
  }

  /** `_receive_file` on a connection whose peer sends `s`. */
  function ReceiveFrom(s: Bytes, c: Crypto): (r: Reception)
    // no record unless the header stage succeeded, and then exactly one
    ensures r.outcome.Refused? <==> ReceiveHeader(s, c).result.None?
    ensures r.outcome.Recorded? ==> Some(r.outcome.header) == ReceiveHeader(s, c).result
    // a record never stays ACTIVE, and FAILED always carries its error
    ensures r.outcome.Recorded? ==> r.outcome.status == Complete || r.outcome.status == Failed
    ensures r.outcome.Recorded? ==> (r.outcome.status == Complete <==> r.outcome.error.None?)
    // COMPLETE exactly when the file was opened, every chunk arrived and the digest matches
    ensures r.outcome.Recorded? ==>
      (r.outcome.status == Complete <==>
        r.outcome.fileOpened && r.outcome.run.failure.None? && c.hexDigest(r.outcome.run.written) == r.outcome.header.digest)
    // the chunk loop reads exactly `ceil(filesize / CHUNK_SIZE)` frames after the header
    ensures r.outcome.Recorded? && r.outcome.fileOpened ==>
      r.outcome.run == ReadChunks(ReceiveHeader(s, c).rest, ChunkCount(r.outcome.header.filesize), c)
      && r.rest == r.outcome.run.rest
    ensures r.outcome.Recorded? && !r.outcome.fileOpened ==>
      NamesDirectory(r.outcome.header.filename) && r.outcome.error == Some(IsADirectory(r.outcome.header.filename))
      && r.outcome.run == ChunkRun([], None, r.rest)
    // a chunk failure is the stored error; once every chunk arrived, a digest mismatch is,
    // quoting twelve characters of each digest
    ensures r.outcome.Recorded? && r.outcome.fileOpened && r.outcome.run.failure.Some? ==>
      r.outcome.error == r.outcome.run.failure
    ensures (r.outcome.Recorded? && r.outcome.fileOpened && r.outcome.run.failure.None?
             && c.hexDigest(r.outcome.run.written) != r.outcome.header.digest) ==>
      r.outcome.error == Some(HashMismatch(Prefix12(r.outcome.header.digest), Prefix12(c.hexDigest(r.outcome.run.written))))
    ensures r.outcome.Recorded? && r.outcome.error.Some? && r.outcome.error.value.HashMismatch? ==>
      r.outcome.error == Some(HashMismatch(Prefix12(r.outcome.header.digest), Prefix12(c.hexDigest(r.outcome.run.written))))
  {
    var head := ReceiveHeader(s, c);
    match head.result
    case None => Reception(Refused, head.rest)
    case Some(h) => ReceiveAfterHeader(h, head.rest, c)
  }

  /** What `_receive_file` does once the header `h` was read and `tail` is still to come. */
  function ReceiveAfterHeader(h: Header, tail: Bytes, c: Crypto): (r: Reception)
    ensures r.outcome.Recorded? && r.outcome.header == h
    ensures r.outcome.status == Complete || r.outcome.status == Failed
    ensures r.outcome.status == Complete <==> r.outcome.error.None?
    ensures r.outcome.status == Complete <==>
      r.outcome.fileOpened && r.outcome.run.failure.None? && c.hexDigest(r.outcome.run.written) == h.digest
    ensures r.outcome.fileOpened <==> !NamesDirectory(h.filename)
    ensures r.outcome.fileOpened ==>
      r.outcome.run == ReadChunks(tail, ChunkCount(h.filesize), c) && r.rest == r.outcome.run.rest
    ensures !r.outcome.fileOpened ==>
      r.outcome.error == Some(IsADirectory(h.filename)) && r.outcome.run == ChunkRun([], None, tail) && r.rest == tail
    ensures r.outcome.fileOpened && r.outcome.run.failure.Some? ==> r.outcome.error == r.outcome.run.failure
    ensures r.outcome.fileOpened && r.outcome.run.failure.None? && c.hexDigest(r.outcome.run.written) != h.digest ==>
      r.outcome.error == Some(HashMismatch(Prefix12(h.digest), Prefix12(c.hexDigest(r.outcome.run.written))))
    ensures r.outcome.error.Some? && r.outcome.error.value.HashMismatch? ==>
      r.outcome.error == Some(HashMismatch(Prefix12(h.digest), Prefix12(c.hexDigest(r.outcome.run.written))))
  {
    if NamesDirectory(h.filename) then
      Reception(Recorded(h, false, ChunkRun([], None, tail), Failed, Some(IsADirectory(h.filename))), tail)
    else
      var run := ReadChunks(tail, ChunkCount(h.filesize), c);
      var actual := c.hexDigest(run.written);
      var outcome :=
        if run.failure.Some? then Recorded(h, true, run, Failed, run.failure)
        else if actual != h.digest then
          Recorded(h, true, run, Failed, Some(HashMismatch(Prefix12(h.digest), Prefix12(actual))))
        else Recorded(h, true, run, Complete, None);
      Reception(outcome, run.rest)
  }

  /** The receiving server: its transfer records, the receive directory and the received-file callback. */
  class FileServer {
    const crypto: Crypto
    /** `_transfers`, in registration order. */
    var transfers: seq<TransferInfo>
    /** The receive directory: file name to the bytes written to it. */
    var files: map<string, Bytes>
    /** The records handed to `on_file_received`, in order. */
    var delivered: seq<TransferInfo>

    /** `mkdir(parents=True, exist_ok=True)` keeps whatever the receive directory already holds. */
    constructor (crypto: Crypto, existing: map<string, Bytes>)
      ensures this.crypto == crypto && transfers == [] && files == existing && delivered == []
    {
      this.crypto := crypto;
      transfers := [];
      files := existing;
      delivered := [];
    }

    /** `_register_transfer`: append a record. */
    method RegisterTransfer(info: TransferInfo)
      modifies this
      ensures transfers == old(transfers) + [info]
      ensures files == old(files) && delivered == old(delivered)
    {
      transfers := transfers + [info];
    }

    /** `get_transfers`: a snapshot of every record. */
    function GetTransfers(): (snapshot: seq<TransferInfo>)
      reads this
      ensures snapshot == transfers
    {
      transfers
    }

    /** The header stage of `_receive_file`: read one frame and make a header of it. */
    method ReadHeader(conn: Socket) returns (header: Option<Header>)
      modifies conn
      ensures Read(header, conn.incoming) == ReceiveHeader(old(conn.incoming), crypto)
    {
      var enc := ReadFrame(conn, DEFAULT_MAX_FRAME);
      if enc.Err? {
        return None;
      }
      var raw := crypto.decrypt(enc.value);
      if raw.None? {
        return None;
      }
      var text := crypto.decodeText(raw.value);
      if text.None? {
        return None;
      }
      var parsed := ParseHeader(text.value);
      if parsed.Err? {
        return None;
      }
      return Some(parsed.value);
    }

    /**
     * One pass of the chunk loop: read a frame and decrypt it. `left` (at least
     * one) is the number of passes still due, the current one included.
     */
    method ReadChunk(conn: Socket, ghost left: nat) returns (plain: Result<Bytes, TransferError>)
      requires left >= 1
      modifies conn
      ensures ReadChunks(old(conn.incoming), left, crypto) ==
        match plain
        case Err(e) => ChunkRun([], Some(e), conn.incoming)
        case Ok(p) => After(p, ReadChunks(conn.incoming, left - 1, crypto))
    {
      ghost var before := conn.incoming;
      var chunk := ReadFrame(conn, DEFAULT_MAX_FRAME);
      if chunk.Err? {
        ReadChunksBadFrame(before, left, crypto, chunk.error, conn.incoming);
        return Err(FrameFailed(chunk.error));
      }
      var decrypted := crypto.decrypt(chunk.value);
      if decrypted.None? {
        ReadChunksBadToken(before, left, crypto, chunk.value, conn.incoming);
        return Err(InvalidToken);
      }
      ReadChunksGood(before, left, crypto, chunk.value, conn.incoming, decrypted.value);
      return Ok(decrypted.value);
    }

    /**
     * The chunk loop of `_receive_file`: read `count` frames, decrypting each
     * and counting its plaintext bytes on `info`; the first failure stops it.
     */
    method ReadChunksFrom(conn: Socket, info: TransferInfo, count: nat) returns (content: Bytes, failure: Option<TransferError>)
      modifies conn, info
      ensures ChunkRun(content, failure, conn.incoming) == ReadChunks(old(conn.incoming), count, crypto)
      ensures info.bytesTransferred == old(info.bytesTransferred) + |content|
      ensures info.status == old(info.status) && info.error == old(info.error)
    {
      ghost var whole := ReadChunks(conn.incoming, count, crypto);
      content := [];
      failure := None;
      var i := 0;
      ghost var left := count;
      while i < count && failure.None?
        decreases count - i, if failure.None? then 1 else 0
        invariant 0 <= i <= count && left == count - i
        invariant failure.None? ==> After(content, ReadChunks(conn.incoming, left, crypto)) == whole
        invariant failure.Some? ==> ChunkRun(content, failure, conn.incoming) == whole
        invariant info.bytesTransferred == old(info.bytesTransferred) + |content|
        invariant info.status == old(info.status) && info.error == old(info.error)
      {
        ghost var pass := ReadChunks(conn.incoming, left, crypto);
        var plain := ReadChunk(conn, left);
        if plain.Err? {
          StoppedAfter(content, pass, plain.error, conn.incoming, whole);
          failure := Some(plain.error);
        } else {
          var p := plain.value;
          ghost var remaining := ReadChunks(conn.incoming, left - 1, crypto);
          WrittenAfter(content, p, pass, remaining, whole);
          content := content + p;
          info.bytesTransferred := info.bytesTransferred + |p|;
          i := i + 1;
          left := left - 1;
          assert After(content, remaining) == whole;
        }
      }
    }

    /** `_receive_file`: receive, decrypt and verify one file from `conn`. */
    method ReceiveFile(conn: Socket, peerIp: string) returns (info: TransferInfo?)
      modifies this, conn
      ensures conn.incoming == ReceiveFrom(old(conn.incoming), crypto).rest
      ensures ReceiveFrom(old(conn.incoming), crypto).outcome.Refused? ==>
        info == null && transfers == old(transfers) && files == old(files) && delivered == old(delivered)
      ensures var r := ReceiveFrom(old(conn.incoming), crypto).outcome;
        r.Recorded? ==>
          && info != null && fresh(info)
          && transfers == old(transfers) + [info] && delivered == old(delivered) + [info]
          && info.filename == r.header.filename && info.filesize == r.header.filesize
          && info.direction == Recv && info.peerIp == peerIp
          && info.status == r.status && info.error == r.error
          && info.bytesTransferred == |r.run.written|
          && files == if r.fileOpened then old(files)[r.header.filename := r.run.written] else old(files)
    {
      ghost var s := conn.incoming;
      var parsed := ReadHeader(conn);
      ghost var tail := conn.incoming;
      if parsed.None? {
        assert ReceiveFrom(s, crypto) == Reception(Refused, tail);
        return null;
      }
      assert ReceiveFrom(s, crypto) == ReceiveAfterHeader(parsed.value, tail, crypto);
      info := ReceiveBody(conn, parsed.value, peerIp);
    }

    /**
     * `_receive_file` after a good header: register an ACTIVE record, then
     * refuse a directory name, or read the chunks into the file and check the digest.
     */
    method ReceiveBody(conn: Socket, header: Header, peerIp: string) returns (info: TransferInfo)
      modifies this, conn
      ensures conn.incoming == ReceiveAfterHeader(header, old(conn.incoming), crypto).rest
      ensures var r := ReceiveAfterHeader(header, old(conn.incoming), crypto).outcome;
        && r.Recorded? && r.header == header && fresh(info)
        && transfers == old(transfers) + [info] && delivered == old(delivered) + [info]
        && info.filename == header.filename && info.filesize == header.filesize
        && info.direction == Recv && info.peerIp == peerIp
        && info.status == r.status && info.error == r.error
        && info.bytesTransferred == |r.run.written|
        && files == if r.fileOpened then old(files)[header.filename := r.run.written] else old(files)
    {
      ghost var tail := conn.incoming;
      info := new TransferInfo(header.filename, header.filesize, Recv, peerIp, Active);
      RegisterTransfer(info);

      if NamesDirectory(header.filename) {
        info.status := Failed;
        info.error := Some(IsADirectory(header.filename));
        delivered := delivered + [info];
        return;
      }

      // `open(dest, "wb")` creates the file; it ends up holding the plaintext of every chunk read
      var content, failure := ReadChunksFrom(conn, info, ChunkCount(header.filesize));
      files := files[header.filename := content];
      if failure.Some? {
        info.status := Failed;
        info.error := failure;
      } else {
        var actual := crypto.hexDigest(content);
        if actual != header.digest {
          info.status := Failed;
          info.error := Some(HashMismatch(Prefix12(header.digest), Prefix12(actual)));
        } else {
          info.status := Complete;
        }
      }
      delivered := delivered + [info];
    }
  }
}
