/**
 * Sender and receiver together: what `FileServer._receive_file` makes of the
 * bytes `FileClient._send_worker` puts on the wire, when both sides hold the
 * same key.
 */
module Loopback {
  import opened Wrappers
  import opened Framing
  import opened Header
  import opened Records
  import opened Receive
  import opened Send

  /** Every token of at most one chunk of plaintext is a frame the receiver accepts. */
  ghost predicate ChunkTokensFit(c: Crypto)
  {
    forall data :: |data| <= CHUNK_SIZE ==> 1 <= |c.encrypt(data)| <= DEFAULT_MAX_FRAME
  }

  /** A file name the receiver keeps as it is and can open as a file. */
  predicate PlainName(name: string)
  {
    SEPARATOR !in name && SLASH !in name && name != "" && name != "." && name != ".."
  }

  /** The header a receiver should see for a file. */
  function SentHeader(name: string, content: Bytes, message: Option<string>, c: Crypto): Header
  {
    Header(name, |content|, c.hexDigest(content), if HasMessage(message) then message else None)
  }

  /** Whether the sender's header and chunk tokens all reach the receiver intact. */
  ghost predicate Deliverable(name: string, content: Bytes, message: Option<string>, c: Crypto)
  {
    && Sound(c) && Packable(c) && ChunkTokensFit(c) && PlainName(name)
    && (message.Some? ==> SEPARATOR !in message.value)
    && 1 <= |Tokens(name, content, message, c)[0]| <= DEFAULT_MAX_FRAME
  }

  /** The header frame reaches the receiver as the sender's header, leaving what follows it. */
  lemma HeaderArrives(name: string, content: Bytes, message: Option<string>, c: Crypto, tail: Bytes)
    requires Deliverable(name, content, message, c)
    ensures ReceiveHeader(PackFrame(Tokens(name, content, message, c)[0]) + tail, c)
      == Read(Some(SentHeader(name, content, message, c)), tail)
  {
    var token := Tokens(name, content, message, c)[0];
    UnpackPackedFrame(token, tail, DEFAULT_MAX_FRAME);
    var text := HeaderText(name, content, message, c);
    assert c.decrypt(token) == Some(c.encodeText(text));
    assert c.decodeText(c.encodeText(text)) == Some(text);
    assert SEPARATOR !in c.hexDigest(content);
    HeaderRoundTrip(name, |content|, c.hexDigest(content), message);
    BasenameOfName(name);
  }

  /** The token of chunk `i` is a frame the receiver accepts and decrypts back to that chunk. */
  lemma ChunkTokenReads(content: Bytes, c: Crypto, i: nat)
    requires Sound(c) && ChunkTokensFit(c) && i < ChunkCount(|content|)
    ensures 1 <= |ChunkTokens(content, c)[i]| <= DEFAULT_MAX_FRAME
    ensures c.decrypt(ChunkTokens(content, c)[i]) == Some(Chunks(content)[i])
  {
    var chunk := Chunks(content)[i];
    assert ChunkTokens(content, c)[i] == c.encrypt(chunk);
    assert |chunk| <= CHUNK_SIZE;
  }

  /** Each token is a frame the receiver accepts and decrypts to the matching plaintext. */
  ghost predicate FramesRead(tokens: seq<Bytes>, plains: seq<Bytes>, c: Crypto)
  {
    && |tokens| == |plains|
    && forall i :: 0 <= i < |tokens| ==> 1 <= |tokens[i]| <= DEFAULT_MAX_FRAME && c.decrypt(tokens[i]) == Some(plains[i])
  }

  /** Under a sound cipher whose chunk tokens fit a frame, every chunk token is read back as its chunk. */
  lemma ChunkTokensRead(content: Bytes, c: Crypto)
    requires Sound(c) && ChunkTokensFit(c)
    ensures FramesRead(ChunkTokens(content, c), Chunks(content), c)
  {
    forall i | 0 <= i < ChunkCount(|content|)
      ensures 1 <= |ChunkTokens(content, c)[i]| <= DEFAULT_MAX_FRAME
      ensures c.decrypt(ChunkTokens(content, c)[i]) == Some(Chunks(content)[i])
    {
      ChunkTokenReads(content, c, i);
    }
  }

  /** The frames of the first `k` chunk tokens are read back as the first `k` chunks. */
  lemma ChunksArrive(content: Bytes, c: Crypto, k: nat, rest: Bytes, more: nat)
    requires FramesRead(ChunkTokens(content, c), Chunks(content), c) && k <= ChunkCount(|content|)
    ensures ReadChunks(Frames(ChunkTokens(content, c)[..k]) + rest, k + more, c)
        == After(Concat(Chunks(content)[..k]), ReadChunks(rest, more, c))
  {
    var tokens := ChunkTokens(content, c)[..k];
    var chunks := Chunks(content)[..k];
    assert FramesRead(tokens, chunks, c);
    ReadChunksOfFrames(tokens, chunks, rest, k + more, more, c);
  }

  /**
   * When the stream ends after the first `k - 1` chunk frames, the chunk loop
   * writes those chunks and stops on the closed connection.
   */
  lemma ChunksThenClosed(content: Bytes, c: Crypto, k: nat)
    requires FramesRead(ChunkTokens(content, c), Chunks(content), c) && 1 <= k <= ChunkCount(|content|)
    ensures ReadChunks(Frames(ChunkTokens(content, c)[..k - 1]), ChunkCount(|content|), c)
      == ChunkRun(content[..(k - 1) * CHUNK_SIZE], Some(FrameFailed(ClosedReadingLength)), [])
  {
    var count := ChunkCount(|content|);
    var j := k - 1;
    var more := count - j;
    var frames := Frames(ChunkTokens(content, c)[..j]);
    var closed := Some(FrameFailed(ClosedReadingLength));
    assert frames + [] == frames;
    ChunksArrive(content, c, j, [], more);
    assert ReadChunks(frames, count, c) == After(Concat(Chunks(content)[..j]), ReadChunks([], more, c));
    ReadChunksOnClosed(more, c);
    ChunkStartsInFile(|content|, j);
    ConcatChunksPrefix(content, j);
    var written := content[..j * CHUNK_SIZE];
    assert ReadChunks(frames, count, c) == After(written, ChunkRun([], closed, []));
    assert written + [] == written;
  }

  /** How the receiver ends when the header arrived and the chunk loop ran to completion. */
  lemma ReceiveWhenAllArrives(s: Bytes, c: Crypto, h: Header, tail: Bytes, written: Bytes, rest: Bytes)
    requires ReceiveHeader(s, c) == Read(Some(h), tail) && !NamesDirectory(h.filename)
    requires ReadChunks(tail, ChunkCount(h.filesize), c) == ChunkRun(written, None, rest)
    requires c.hexDigest(written) == h.digest
    ensures ReceiveFrom(s, c) == Reception(Recorded(h, true, ChunkRun(written, None, rest), Complete, None), rest)
  {
  }

  /** Over a reliable connection the sender puts the header frame, then every chunk frame, on the wire. */
  lemma ReliableWire(name: string, content: Bytes, message: Option<string>, c: Crypto)
    requires Packable(c)
    ensures var sent := SendFileOver(name, content, message, c, Reliable);
      sent.status == Complete && sent.transferred == |content|
      && sent.wire == PackFrame(Tokens(name, content, message, c)[0]) + Frames(ChunkTokens(content, c))
  {
    var tokens := Tokens(name, content, message, c);
    assert Frames(tokens) == PackFrame(tokens[0]) + Frames(tokens[1..]);
  }

  /** Every chunk frame read back: the chunk loop writes the whole file and stops after the last frame. */
  lemma AllChunksArrive(content: Bytes, c: Crypto, rest: Bytes)
    requires Sound(c) && Packable(c) && ChunkTokensFit(c)
    ensures ReadChunks(Frames(ChunkTokens(content, c)) + rest, ChunkCount(|content|), c) == ChunkRun(content, None, rest)
  {
    var count := ChunkCount(|content|);
    ChunkTokensRead(content, c);
    ChunksArrive(content, c, count, rest, 0);
    assert ChunkTokens(content, c)[..count] == ChunkTokens(content, c);
    assert Chunks(content)[..count] == Chunks(content);
    ChunksCoverFile(content);
    assert content + [] == content;
  }

  /**
   * Loopback: a file sent over a connection that delivers every frame is
   * received whole under its own name, with its size, digest and message,
   * and the receiver's record ends COMPLETE with nothing after it consumed.
   */
  lemma SendThenReceive(name: string, content: Bytes, message: Option<string>, c: Crypto, rest: Bytes)
    requires Deliverable(name, content, message, c)
    ensures var sent := SendFileOver(name, content, message, c, Reliable);
      sent.status == Complete && sent.transferred == |content|
      && ReceiveFrom(sent.wire + rest, c)
        == Reception(Recorded(SentHeader(name, content, message, c), true, ChunkRun(content, None, rest), Complete, None), rest)
  {
    var tail := Frames(ChunkTokens(content, c)) + rest;
    ReliableWire(name, content, message, c);
    var s := SendFileOver(name, content, message, c, Reliable).wire + rest;
    assert s == PackFrame(Tokens(name, content, message, c)[0]) + tail;
    HeaderArrives(name, content, message, c, tail);
    AllChunksArrive(content, c, rest);
    ReceiveWhenAllArrives(s, c, SentHeader(name, content, message, c), tail, content, rest);
  }

  /** How the receiver ends when the header arrived and the chunk loop stopped on an error. */
  lemma ReceiveWhenChunksFail(s: Bytes, c: Crypto, h: Header, tail: Bytes, written: Bytes, e: TransferError, rest: Bytes)
    requires ReceiveHeader(s, c) == Read(Some(h), tail) && !NamesDirectory(h.filename)
    requires ReadChunks(tail, ChunkCount(h.filesize), c) == ChunkRun(written, Some(e), rest)
    ensures ReceiveFrom(s, c) == Reception(Recorded(h, true, ChunkRun(written, Some(e), rest), Failed, Some(e)), rest)
  {
  }

  /** A chunk loop with passes left on a closed connection stops with a closed-connection error. */
  lemma ReadChunksOnClosed(count: nat, c: Crypto)
    requires count >= 1
    ensures ReadChunks([], count, c) == ChunkRun([], Some(FrameFailed(ClosedReadingLength)), [])
  {
    assert UnpackFrame([], DEFAULT_MAX_FRAME) == Read(Err(ClosedReadingLength), []);
    ReadChunksBadFrame([], count, c, ClosedReadingLength, []);
  }

  /** A connection that breaks at frame `k` puts the header and the first `k - 1` chunk frames on the wire. */
  lemma BrokenWire(name: string, content: Bytes, message: Option<string>, c: Crypto, k: nat, reason: string)
    requires Packable(c) && 1 <= k <= ChunkCount(|content|)
    ensures var sent := SendFileOver(name, content, message, c, BreaksAt(k, reason));
      sent.status == Failed && sent.transferred == (k - 1) * CHUNK_SIZE
      && sent.wire == PackFrame(Tokens(name, content, message, c)[0]) + Frames(ChunkTokens(content, c)[..k - 1])
  {
    var tokens := Tokens(name, content, message, c);
    assert tokens[..k][1..] == ChunkTokens(content, c)[..k - 1];
    assert Frames(tokens[..k]) == PackFrame(tokens[0]) + Frames(tokens[..k][1..]);
  }

  /**
   * A send whose connection breaks after the header leaves the receiver with
   * a FAILED record (the stream ends where a chunk frame was due) and the
   * chunks that did arrive written to the file.
   */
  lemma BrokenSendFailsReceive(name: string, content: Bytes, message: Option<string>, c: Crypto, k: nat, reason: string)
    requires Deliverable(name, content, message, c) && 1 <= k <= ChunkCount(|content|)
    ensures var sent := SendFileOver(name, content, message, c, BreaksAt(k, reason));
      var closed := Some(FrameFailed(ClosedReadingLength));
      sent.status == Failed
      && ReceiveFrom(sent.wire, c) == Reception(
        Recorded(SentHeader(name, content, message, c), true, ChunkRun(content[..(k - 1) * CHUNK_SIZE], closed, []), Failed, closed),
        [])
  {
    var tail := Frames(ChunkTokens(content, c)[..k - 1]);
    BrokenWire(name, content, message, c, k, reason);
    var s := SendFileOver(name, content, message, c, BreaksAt(k, reason)).wire;
    assert s == PackFrame(Tokens(name, content, message, c)[0]) + tail;
    HeaderArrives(name, content, message, c, tail);
    ChunkTokensRead(content, c);
    ChunksThenClosed(content, c, k);
    ReceiveWhenChunksFail(s, c, SentHeader(name, content, message, c), tail,
      content[..(k - 1) * CHUNK_SIZE], FrameFailed(ClosedReadingLength), []);
  }

  /** A send whose connection breaks before the header leaves nothing for the receiver to record. */
  lemma BrokenHeaderIsRefused(name: string, content: Bytes, message: Option<string>, c: Crypto, reason: string)
    requires Packable(c)
    ensures var sent := SendFileOver(name, content, message, c, BreaksAt(0, reason));
      sent.status == Failed && sent.transferred == 0 && sent.wire == []
      && ReceiveFrom(sent.wire, c) == Reception(Refused, [])
  {
    assert Tokens(name, content, message, c)[..0] == [];
    assert UnpackFrame([], DEFAULT_MAX_FRAME) == Read(Err(ClosedReadingLength), []);
  }
}
