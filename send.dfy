/**
 * The sending side of mesh_pulse/core/transfer.py: `FileClient` hands each
 * send to a worker, and `_send_worker` hashes the file, then sends an
 * encrypted header frame and one encrypted frame per 64 KiB chunk.
 *
 * `Sending` states, as a function of the file and of how the connection
 * behaves, what the peer receives and what the transfer record ends as;
 * `FileClient.SendWorker` is proved to do exactly that.
 */
module Send {
  import opened Wrappers
  import opened Slices
  import opened Framing
  import opened Header
  import opened Records
  import opened Receive

  /** How the connection to the peer behaves. */
  datatype Network =
    | Unreachable(reason: string)          // connect() raises
    | BreaksAt(frame: nat, reason: string) // sendall() raises on this frame (0 is the header) and on every later one
    | Reliable

  /** Whether frame number `frame` reaches the peer. */
  predicate Delivers(net: Network, frame: nat)
  {
    net.Reliable? || (net.BreaksAt? && frame < net.frame)
  }

  /** `f"{path.name}|{filesize}|{file_hash}"`, with `|message` for a non-empty message. */
  function HeaderText(name: string, content: Bytes, message: Option<string>, c: Crypto): string
  {
    BuildHeader(name, |content|, c.hexDigest(content), message)
  }

  /** The token of each chunk, in order. */
  function ChunkTokens(content: Bytes, c: Crypto): (tokens: seq<Bytes>)
    ensures |tokens| == ChunkCount(|content|)
    ensures forall i :: 0 <= i < |tokens| ==> tokens[i] == c.encrypt(Chunks(content)[i])
  {
    var chunks := Chunks(content);
    seq(|chunks|, i requires 0 <= i < |chunks| => c.encrypt(chunks[i]))
  }

  /** The tokens a transfer sends, in order: the header's, then one per chunk. */
  function Tokens(name: string, content: Bytes, message: Option<string>, c: Crypto): (tokens: seq<Bytes>)
    ensures |tokens| == 1 + ChunkCount(|content|)
    ensures tokens[0] == c.encrypt(c.encodeText(HeaderText(name, content, message, c)))
    ensures tokens[1..] == ChunkTokens(content, c)
    ensures forall i :: 1 <= i < |tokens| ==> tokens[i] == c.encrypt(Chunks(content)[i - 1])
  {
    [c.encrypt(c.encodeText(HeaderText(name, content, message, c)))] + ChunkTokens(content, c)
  }

  /** What one `_send_worker` run leaves: the bytes on the wire and the final record. */
  datatype Sending = Sending(wire: Bytes, status: Status, transferred: nat, error: Option<TransferError>)

  /** `_send_worker` for an existing file holding `content`, sent as `name`. */
  function SendFileOver(name: string, content: Bytes, message: Option<string>, c: Crypto, net: Network): (r: Sending)
    requires Packable(c)
    // the record always ends COMPLETE or FAILED, and FAILED carries the network error
    ensures r.status == Complete || r.status == Failed
    ensures r.status == Complete <==> r.error.None?
    ensures r.status == Failed ==> !net.Reliable? && r.error == Some(Network(net.reason))
    // COMPLETE exactly when every frame goes through; then the whole file was counted and sent
    ensures r.status == Complete <==> !net.Unreachable? && Delivers(net, ChunkCount(|content|))
    ensures r.status == Complete ==>
      r.transferred == |content| && r.wire == Frames(Tokens(name, content, message, c))
    // an unreachable peer gets nothing; a connection that breaks at frame `net.frame` got the
    // frames before it, whole, and the chunks among them were counted
    ensures r.status == Failed && net.Unreachable? ==> r.wire == [] && r.transferred == 0
    ensures r.status == Failed && net.BreaksAt? ==>
      net.frame <= ChunkCount(|content|)
      && r.wire == Frames(Tokens(name, content, message, c)[..net.frame])
      && r.transferred == (if net.frame == 0 then 0 else (net.frame - 1) * CHUNK_SIZE)
    ensures r.transferred <= |content|
  {
    if net.Unreachable? then
      assert Tokens(name, content, message, c)[..0] == [];
      Sending([], Failed, 0, Some(Network(net.reason)))
    else
      var tokens := Tokens(name, content, message, c);
      if Delivers(net, |tokens| - 1) then Sending(Frames(tokens), Complete, |content|, None)
      else
        var k := net.frame;
        var transferred := if k == 0 then 0 else (k - 1) * CHUNK_SIZE;
        assert k <= ChunkCount(|content|) && transferred <= |content| by {
          if k >= 1 { ChunkStartsInFile(|content|, k - 1); }
        }
        Sending(Frames(tokens[..k]), Failed, transferred, Some(Network(net.reason)))
  }

  /** Sending token `k` after the frames of the first `k` tokens gives the frames of the first `k + 1`. */
  lemma NextFrame(tokens: seq<Bytes>, k: nat, wire: Bytes, token: Bytes)
    requires forall i :: 0 <= i < |tokens| ==> |tokens[i]| < LENGTH_LIMIT
    requires k < |tokens| && token == tokens[k] && wire == Frames(tokens[..k])
    ensures wire + PackFrame(token) == Frames(tokens[..k + 1])
  {
    TakeNext(tokens, k);
    FramesSnoc(tokens[..k], token);
  }

  /** One call of `send`: the arguments handed to a worker thread. */
  datatype SendRequest = SendRequest(peerIp: string, path: string, message: Option<string>)

  /**
   * The sends `send_multiple` and `send_file` issue for a list of paths: one
   * per path, in list order, the message going with the first path only.
   */
  function FanOut(peerIp: string, paths: seq<string>, message: Option<string>): (rs: seq<SendRequest>)
    ensures |rs| == |paths|
    ensures forall i :: 0 <= i < |paths| ==>
      rs[i] == SendRequest(peerIp, paths[i], if i == 0 then message else None)
    decreases |paths|
  {
    if paths == [] then [] else [SendRequest(peerIp, paths[0], message)] + FanOut(peerIp, paths[1..], None)
  }

  /** The sending client: its transfer records and the sends it has started. */
  class FileClient {
    const crypto: Crypto
    /** `_transfers`, in registration order. */
    var transfers: seq<TransferInfo>
    /** The worker threads started by `send`, in order. */
    var launched: seq<SendRequest>

    constructor (crypto: Crypto)
      ensures this.crypto == crypto && transfers == [] && launched == []
    {
      this.crypto := crypto;
      transfers := [];
      launched := [];
    }

    /** `get_transfers`: a snapshot of every record. */
    function GetTransfers(): (snapshot: seq<TransferInfo>)
      reads this
      ensures snapshot == transfers
    {
      transfers
    }

    /** `send`: start a worker for one file. */
    method Send(peerIp: string, filepath: string, message: Option<string>)
      modifies this
      ensures launched == old(launched) + [SendRequest(peerIp, filepath, message)]
      ensures transfers == old(transfers)
    {
      launched := launched + [SendRequest(peerIp, filepath, message)];
    }

    /** `send_multiple`: one worker per file, the message going with the first file only. */
    method SendMultiple(peerIp: string, filepaths: seq<string>, message: Option<string>)
      modifies this
      ensures launched == old(launched) + FanOut(peerIp, filepaths, message)
      ensures transfers == old(transfers)
    {
      var i := 0;
      while i < |filepaths|
        invariant 0 <= i <= |filepaths|
        invariant |launched| == |old(launched)| + i && launched[..|old(launched)|] == old(launched)
        invariant forall j :: 0 <= j < i ==>
          launched[|old(launched)| + j] == SendRequest(peerIp, filepaths[j], if j == 0 then message else None)
        invariant transfers == old(transfers)
      {
        var msg := if i == 0 then message else None;
        Send(peerIp, filepaths[i], msg);
        i := i + 1;
      }
    }

    /** `_register_transfer`: append a record. */
    method RegisterTransfer(info: TransferInfo)
      modifies this
      ensures transfers == old(transfers) + [info] && launched == old(launched)
    {
      transfers := transfers + [info];
    }

    /** The pre-computed SHA-256: the file read block by block, every block hashed. */
    method HashFile(content: Bytes) returns (digest: string)
      ensures digest == crypto.hexDigest(content)
    {
      var hashed: Bytes := [];
      var pos := 0;
      var block := ReadAt(content, pos, CHUNK_SIZE);
      while block != []
        invariant pos <= |content| && hashed == content[..pos]
        invariant block == ReadAt(content, pos, CHUNK_SIZE)
        decreases |content| - pos
      {
        hashed := hashed + block;
        pos := pos + |block|;
        block := ReadAt(content, pos, CHUNK_SIZE);
      }
      assert hashed == content;
      digest := crypto.hexDigest(hashed);
    }

    /**
     * The chunk loop of `_send_worker`: read, encrypt and send each chunk,
     * counting its bytes on `info`, until the connection breaks.
     */
    method SendChunks(content: Bytes, ghost tokens: seq<Bytes>, info: TransferInfo, net: Network, wire0: Bytes)
      returns (wire: Bytes, broken: bool)
      requires Packable(crypto) && !net.Unreachable? && Delivers(net, 0)
      requires |tokens| == 1 + ChunkCount(|content|)
      requires forall i :: 0 <= i < |tokens| ==> |tokens[i]| < LENGTH_LIMIT
      requires forall i :: 1 <= i < |tokens| ==> tokens[i] == crypto.encrypt(Chunks(content)[i - 1])
      requires wire0 == Frames(tokens[..1]) && info.bytesTransferred == 0
      modifies info
      ensures broken <==> !Delivers(net, ChunkCount(|content|))
      ensures !broken ==> wire == Frames(tokens) && info.bytesTransferred == |content|
      ensures broken ==>
        wire == Frames(tokens[..net.frame]) && info.bytesTransferred == (net.frame - 1) * CHUNK_SIZE
      ensures info.status == old(info.status) && info.error == old(info.error)
    {
      var count := ChunkCount(|content|);
      wire := wire0;
      broken := false;
      var pos := 0;
      var i := 0;
      while i < count
        invariant 0 <= i <= count && pos <= |content| && !broken
        invariant Delivers(net, i) && pos == Min(i * CHUNK_SIZE, |content|)
        invariant wire == Frames(tokens[..i + 1]) && info.bytesTransferred == pos
        invariant info.status == old(info.status) && info.error == old(info.error)
      {
        var raw := ReadAt(content, pos, CHUNK_SIZE);
        assert raw == Chunks(content)[i] by {
          ChunkAt(content, i, pos);
        }
        var encrypted := crypto.encrypt(raw);
        if !Delivers(net, i + 1) {
          // `sendall` raises: the frames so far are on the wire and `i` whole chunks were counted.
          assert pos == i * CHUNK_SIZE by {
            ChunkStartsInFile(|content|, i);
          }
          broken := true;
          break;
        }
        NextFrame(tokens, i + 1, wire, encrypted);
        NextChunkStart(|content|, i, pos);
        wire := wire + PackFrame(encrypted);
        info.bytesTransferred := info.bytesTransferred + |raw|;
        pos := pos + |raw|;
        i := i + 1;
      }
      if !broken {
        assert tokens[..i + 1] == tokens;
      }
    }

    /** `_send_worker`: hash the file, then send its header and chunks over `net`. */
    method SendWorker(request: SendRequest, disk: map<string, Bytes>, net: Network) returns (info: TransferInfo?, wire: Bytes)
      requires Packable(crypto)
      modifies this
      ensures launched == old(launched)
      ensures request.path !in disk ==> info == null && wire == [] && transfers == old(transfers)
      ensures request.path in disk ==>
        var name := Basename(request.path);
        var r := SendFileOver(name, disk[request.path], request.message, crypto, net);
        && info != null && fresh(info) && transfers == old(transfers) + [info]
        && info.filename == name && info.filesize == |disk[request.path]|
        && info.direction == Direction.Send && info.peerIp == request.peerIp
        && info.status == r.status && info.bytesTransferred == r.transferred && info.error == r.error
        && wire == r.wire
    {
      if request.path !in disk {
        return null, [];
      }
      var content := disk[request.path];
      var name := Basename(request.path);
      var digest := HashFile(content);
      info := new TransferInfo(name, |content|, Direction.Send, request.peerIp, Active);
      RegisterTransfer(info);
      ghost var tokens := Tokens(name, content, request.message, crypto);

      if net.Unreachable? {
        info.status := Failed;
        info.error := Some(Network(net.reason));
        return info, [];
      }
      var header := BuildHeader(name, |content|, digest, request.message);
      var encHeader := crypto.encrypt(crypto.encodeText(header));
      if !Delivers(net, 0) {
        assert tokens[..0] == [];
        info.status := Failed;
        info.error := Some(Network(net.reason));
        return info, [];
      }
      wire := PackFrame(encHeader);
      assert tokens[..1] == [encHeader];
      var broken;
      wire, broken := SendChunks(content, tokens, info, net, wire);
      if broken {
        info.status := Failed;
        info.error := Some(Network(net.reason));
      } else {
        info.status := Complete;
      }
    }
  }
}
