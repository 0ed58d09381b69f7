# mesh_pulse in Dafny

This project models the core of mesh_pulse, a LAN tool. Peers on the same network find each other by UDP heartbeat beacons, watch each other's system load, and send files to each other over TCP. Every file travels as one Fernet-encrypted header frame (`FILENAME|SIZE|SHA256[|MESSAGE]`) followed by one encrypted frame per 64 KiB chunk. Each frame carries a 4-byte big-endian length prefix. The receiver checks the SHA-256 digest of what it wrote against the digest in the header.

The model covers these parts:

- **Framing** (`mesh_pulse/utils/crypto.py`): `pack_frame`, `unpack_frame` and `_recv_exact` over a `Socket` class. The socket delivers its pending bytes in arbitrary pieces. There is also the nonce layout of the legacy AES-GCM chunk format.
- **Peer registry and discovery** (`mesh_pulse/core/discovery.py`):
  - `PeerManager`, with its ONLINE → STALE → removed lifecycle;
  - the beacon-handling and sweep rules of `PeerDiscovery`.
- **Transfer engine** (`mesh_pulse/core/transfer.py`):
  - `TransferInfo` and `progress`;
  - the header format, the chunk count and the chunking;
  - `FileServer._receive_file`, which is proved against a function of the incoming bytes;
  - `FileClient._send_worker`, which is proved against a function of the file and of how the connection behaves;
  - `send_multiple`, `SecureTransfer.send_file` and `get_transfers`.
- **End-to-end results** that join sender and receiver:
  - a file sent over a connection that delivers every frame is received whole and ends COMPLETE;
  - a connection that breaks mid-transfer leaves the receiver FAILED, holding exactly the chunks that arrived.
- **Bounded buffers**:
  - the `EventLog` deque (`mesh_pulse/tui/widgets/event_log.py`);
  - the `SystemMonitor` history window (`mesh_pulse/core/monitor.py`).

Foreign primitives are function values in a `Crypto` record, and the properties the model relies on are stated as predicates:

- Fernet under the shared key, where decryption may fail;
- SHA-256 hex digests;
- UTF-8 encoding and decoding.

The predicates are:

- `Sound`: decryption undoes encryption, decoding undoes encoding, and a hex digest never contains `|`.
- `Packable`: a token fits the 4-byte prefix.
- `ChunkTokensFit`: the token of a chunk is a frame of 1 byte to 1 MiB.

Time is an explicit `now` parameter. The network is a `Network` value: unreachable, breaking at a given frame, or reliable. A sampling failure is a `None` sample.

Where the code and its documentation disagree, the model follows the code. The receiver compares digests with an exact, case-sensitive `!=` (transfer.py:244), and the model does the same.

## Model

| member | source | states |
|---|---|---|
| Slices.SliceFrom | mesh_pulse/core/monitor.py:223 | Python's `s[k:]` for every `k`: with `k == -n` and `n` positive, the last `min(n, len)` elements; `[-0:]` keeps everything; a positive `k` drops the first `k` |
| Slices.LastOfLast | mesh_pulse/core/monitor.py:221-223 | keeping the last `n`, appending, and keeping the last `n` again equals appending first and keeping the last `n` |
| Framing.EncodeLength | mesh_pulse/utils/crypto.py:166 | `struct.pack(">I", n)` is 4 bytes that `struct.unpack` reads back as `n` |
| Framing.EncodeDecodeLength | mesh_pulse/utils/crypto.py:186 | every 4-byte prefix is the encoding of the length it decodes to |
| Framing.PackFrame | mesh_pulse/utils/crypto.py:157-166 | a frame is 4 + len bytes: the prefix decodes to the payload length and the payload follows unchanged |
| Framing.DecodeLength | mesh_pulse/utils/crypto.py:186 | `struct.unpack(">I", ...)` of four bytes is a length below 2^32 |
| Framing.ExactReadSpec | mesh_pulse/utils/crypto.py:197-213 | with enough bytes, exactly `n` of them are taken and the rest stays; otherwise the result is empty and the stream is used up |
| Framing.UnpackFrameSpec | mesh_pulse/utils/crypto.py:169-194 | a read succeeds iff the prefix arrived, its length is 1..max_size and the payload arrived; a success consumed exactly `pack_frame(data)`; a short prefix is ClosedReadingLength and consumes everything; an oversized length is TooLarge and consumes only the prefix; a declared length of 0 is ClosedReadingData and consumes only the prefix; a payload cut short is ClosedReadingData and consumes everything |
| Framing.UnpackPackedFrame | mesh_pulse/utils/crypto.py:169-194 | round trip: `unpack_frame` of `pack_frame(data) + rest` gives `data` and leaves `rest`, for 1..max_size bytes |
| Framing.OversizedFrameIsRefused | tests/test_crypto_dos.py:6-15 | a declared 2 GiB length is refused as too large without reading any payload |
| Framing.EmptyFrameReadsAsClosed | mesh_pulse/utils/crypto.py:191-193 | `pack_frame(b"")` is read back as a closed connection (empty data is falsy), leaving the rest of the stream unread |
| Framing.Socket.Recv | mesh_pulse/utils/crypto.py:209 | `recv(bufsize)` returns a prefix of the pending bytes of at most `bufsize` bytes; it is non-empty unless the peer closed with nothing left |
| Framing.RecvExact | mesh_pulse/utils/crypto.py:197-213 | the loop of `_recv_exact` computes ExactRead whatever piece sizes the socket delivers |
| Framing.ReadFrame | mesh_pulse/utils/crypto.py:169-194 | `unpack_frame` on a socket returns UnpackFrame of its pending bytes and leaves the socket holding what UnpackFrame leaves |
| ChunkLayout.EncryptChunk | mesh_pulse/utils/crypto.py:117-132 | the payload starts with the 12-byte nonce |
| ChunkLayout.SplitNonce | mesh_pulse/utils/crypto.py:148-149 | `payload[:12]` and `payload[12:]` rejoin to the payload, also for payloads shorter than 12 bytes |
| ChunkLayout.SplitNonceOfLayout | mesh_pulse/utils/crypto.py:148-149 | splitting `nonce + ciphertext` recovers both parts |
| ChunkLayout.DecryptChunk | mesh_pulse/utils/crypto.py:135-151 | the first 12 bytes are opened as the nonce and the rest as the ciphertext; a payload shorter than 12 bytes is all nonce with an empty ciphertext |
| ChunkLayout.DecryptEncryptChunk | mesh_pulse/utils/crypto.py:135-151 | `decrypt_chunk(encrypt_chunk(data))` is `data` for a sound AEAD, whatever nonce was drawn |
| Peers.Updated | mesh_pulse/core/discovery.py:119-130 | exactly the given IP is inserted or refreshed, and it becomes ONLINE and seen now; a new IP gets a fresh peer; a known IP keeps its identity and first-seen time, and its metrics change only when metrics are given; other entries are untouched |
| Peers.Swept | mesh_pulse/core/discovery.py:136-154 | exactly the peers older than the dead timeout are removed; survivors only turn STALE past the stale timeout; no peer is brought back ONLINE |
| Peers.SweepChangesIffRegistryChanges | mesh_pulse/core/discovery.py:139-157 | the `changed` flag, and so the callback, is raised iff the sweep changes the registry |
| Peers.ApplyUpdatesKeys | mesh_pulse/core/discovery.py:119-130 | after a series of updates the registry's keys are the old keys plus every updated IP |
| Peers.CountIsDistinctIps | mesh_pulse/core/discovery.py:169-172 | from an empty registry, `count` is the number of distinct IPs updated |
| Peers.PeerManager.constructor | mesh_pulse/core/discovery.py:92-102 | an empty registry with the given timeouts, by default 6 s to stale and 10 s to removal, and no callback |
| Peers.PeerManager.UpdatePeer | mesh_pulse/core/discovery.py:104-134 | the registry becomes Updated(...) and the change callback fires once when one is attached |
| Peers.PeerManager.Sweep | mesh_pulse/core/discovery.py:136-157 | the marking loop and the removal loop together give Swept(...); the callback fires once iff something changed |
| Peers.PeerManager.RemoveAll | mesh_pulse/core/discovery.py:152-154 | the removal loop of `sweep` deletes exactly the collected IPs and fires no callback |
| Peers.PeerManager.GetPeers | mesh_pulse/core/discovery.py:159-162 | the snapshot holds every peer of the registry and nothing else, one element per entry |
| Peers.PeerManager.GetPeer | mesh_pulse/core/discovery.py:164-167 | None iff the IP is absent; otherwise the entry filed under that IP |
| Peers.PeerManager.Count | mesh_pulse/core/discovery.py:169-172 | `count` is the number of registered IPs |
| Discovery.LiveEntries | mesh_pulse/core/discovery.py:317-321 | exactly the entries seen within the timeout remain, with their timestamps |
| Discovery.PeerDiscovery.constructor | mesh_pulse/core/discovery.py:193-214 | an empty `peers` table with the given settings |
| Discovery.PeerDiscovery.HandleBeacon | mesh_pulse/core/discovery.py:289-306 | our own beacon changes nothing; any other beacon stamps its IP (its own `ip` field, else the sender's address) with now, and updates the attached registry with "unknown" and the default port filled in; the registry's `on_peer_change` then fires once when a callback is attached |
| Discovery.PeerDiscovery.SweepPeers | mesh_pulse/core/discovery.py:315-326 | the table becomes LiveEntries(...), then the attached registry is swept; its `on_peer_change` fires once iff that sweep changed something and a callback is attached |
| Discovery.PeerDiscovery.GetActivePeers | mesh_pulse/core/discovery.py:250-253 | the copy has exactly the table's IPs, each with its last-seen time |
| Header.Split | mesh_pulse/core/transfer.py:206 | `str.split(sep)` never returns an empty list |
| Header.SplitPieces | mesh_pulse/core/transfer.py:206 | no piece of `str.split(sep)` contains `sep`, and joining the pieces with `sep` gives the string back |
| Header.SplitJoin | mesh_pulse/core/transfer.py:206 | splitting a join of separator-free pieces gives the pieces back |
| Header.Basename | mesh_pulse/core/transfer.py:210 | `Path(name).name` never contains `/` and is never "." |
| Header.BasenameDropsDirectories | mesh_pulse/core/transfer.py:210 | any directories before a plain name are removed |
| Header.BasenameOfName | mesh_pulse/core/transfer.py:210 | a plain name is kept unchanged |
| Header.TraversalIsStripped | tests/test_path_traversal.py:53-84 | `../escaped_file.txt` is stored as `escaped_file.txt` |
| Header.Decimal | mesh_pulse/core/transfer.py:393 | `str(n)` is a non-empty string of digits |
| Header.DecimalValue | mesh_pulse/core/transfer.py:393 | the digits of `str(n)` have the value `n` |
| Header.ParseInt | mesh_pulse/core/transfer.py:211 | `int(s)` succeeds iff `s` is ASCII digits, optionally after one sign, and then gives their value, negated after '-' |
| Header.ParseDecimal | mesh_pulse/core/transfer.py:211 | `int(str(n)) == n` |
| Header.ParseHeader | mesh_pulse/core/transfer.py:205-213 | parsing succeeds iff there are at least 3 fields and the size parses; fewer fields is "Invalid header format"; the stored name is one path component; the digest is the third field |
| Header.BuildHeader | mesh_pulse/core/transfer.py:393-395 | the header starts with the name followed by a '\|', and a non-empty message ends it, after a '\|' |
| Header.HeaderRoundTrip | mesh_pulse/core/transfer.py:393-395 | parsing the header the sender builds gives back its basename, its size, its digest, and the message when one is non-empty |
| Header.PipeInNameIsMisread | mesh_pulse/core/transfer.py:206-210 | a name holding '\|' is never received under its own name: a header that parses carries the part before the first '\|' |
| Header.PipeInNameIsRefused | mesh_pulse/core/transfer.py:206-211 | the name `a\|b` makes the receiver read "b" as the size, and the header is refused with a ValueError |
| Header.PipeInMessageIsTruncated | mesh_pulse/core/transfer.py:206-213 | a message holding '\|' arrives cut at its first '\|'; name, size and digest still arrive intact |
| Records.ProgressOf | mesh_pulse/core/transfer.py:78-83 | at most 100; 100 for an empty file and once everything is counted; below 100 while bytes remain; 50 at half-way; not negative |
| Records.TransferInfo.Progress | mesh_pulse/core/transfer.py:78-83 | `progress` is at most 100, is 100 for an empty file and once every byte is counted, and is never negative |
| Records.ChunkCount | mesh_pulse/core/transfer.py:215 | `ceil(filesize / CHUNK_SIZE)` for a positive size, otherwise 0: the smallest count whose chunks cover the size |
| Records.ReadAt | mesh_pulse/core/transfer.py:403 | `f.read(n)` at an offset returns `min(n, remaining)` bytes, taken from that offset |
| Records.Chunks | mesh_pulse/core/transfer.py:401-405 | ChunkCount slices, each of 1 to 64 KiB |
| Records.ConcatChunksFrom | mesh_pulse/core/transfer.py:401-406 | the chunks from the i-th on are the file from offset i·64 KiB |
| Records.ChunksCoverFile | mesh_pulse/core/transfer.py:401-406 | concatenated in order, the chunks are exactly the file |
| Records.ChunkStartsInFile | mesh_pulse/core/transfer.py:215 | every one of the ChunkCount chunks starts before the end of the file |
| Records.ConcatChunksPrefix | mesh_pulse/core/transfer.py:401-406 | the first k chunks are the file's first min(k·64 KiB, size) bytes |
| Records.TransferInfo.constructor | mesh_pulse/core/transfer.py:66-76 | a record with no bytes counted and no error |
| Receive.ReadChunks | mesh_pulse/core/transfer.py:233-240 | the chunk loop stops on the first failure, which is a frame error or an invalid token; zero passes read nothing |
| Receive.ReadChunksBadFrame | mesh_pulse/core/transfer.py:235 | a bad frame stops the loop with its error |
| Receive.ReadChunksBadToken | mesh_pulse/core/transfer.py:236 | a token that does not decrypt stops the loop |
| Receive.ReadChunksGood | mesh_pulse/core/transfer.py:235-239 | a decrypted chunk is written and the loop goes on with one pass fewer |
| Receive.ReadChunksOfFrames | mesh_pulse/core/transfer.py:234-238 | the frames of tokens that decrypt are read back as their plaintexts concatenated, and the passes left over read what follows |
| Receive.ReceiveHeader | mesh_pulse/core/transfer.py:201-213 | the header stage consumes exactly one frame; it yields a header only when that frame was read whole, and the name it yields is one path component |
| Receive.ReceiveFrom | mesh_pulse/core/transfer.py:196-259 | no record unless the header frame decrypts, decodes and parses; a record never stays ACTIVE; it ends COMPLETE iff the file was opened, every chunk arrived and the digest matches; FAILED carries its error: a chunk failure stores that frame or token error, a digest mismatch after every chunk arrived stores HashMismatch quoting 12 characters of each digest, and "" and ".." fail as directories |
| Receive.FileServer.constructor | mesh_pulse/core/transfer.py:126-145 | no records; the receive directory keeps the files it already held |
| Receive.FileServer.RegisterTransfer | mesh_pulse/core/transfer.py:271-274 | the record is appended |
| Receive.FileServer.GetTransfers | mesh_pulse/core/transfer.py:191-194 | every registered record, in registration order |
| Receive.FileServer.ReadHeader | mesh_pulse/core/transfer.py:201-213 | reading, decrypting, decoding and parsing the header frame computes ReceiveHeader |
| Receive.FileServer.ReadChunk | mesh_pulse/core/transfer.py:235-236 | one pass of the chunk loop is one step of ReadChunks |
| Receive.FileServer.ReadChunksFrom | mesh_pulse/core/transfer.py:233-240 | the chunk loop computes ReadChunks and counts every written byte on the record |
| Receive.FileServer.ReceiveFile | mesh_pulse/core/transfer.py:196-269 | no record when the header stage fails; otherwise the record, the file written, the bytes consumed and the received-file callback are those ReceiveFrom describes |
| Receive.ReceiveAfterHeader | mesh_pulse/core/transfer.py:215-258 | after a good header there is always a record for it; it ends COMPLETE iff the file was opened, every chunk arrived and the digest matches, else FAILED with its error; the file is opened iff the name is not "" or "..", and then exactly ChunkCount frames are read; a chunk failure is the stored error, and a digest mismatch after every chunk arrived stores HashMismatch with 12 characters of each digest |
| Receive.FileServer.ReceiveBody | mesh_pulse/core/transfer.py:215-269 | a fresh record is registered and delivered once; its status, error and byte count, the file written and the bytes consumed are those ReceiveAfterHeader describes |
| Send.ChunkTokens | mesh_pulse/core/transfer.py:402-405 | one token per chunk, each the encryption of that chunk |
| Send.Tokens | mesh_pulse/core/transfer.py:397-405 | the header token, then the chunk tokens |
| Send.SendFileOver | mesh_pulse/core/transfer.py:386-417 | the record ends COMPLETE iff the connection opens and delivers every frame, with the whole file counted and every frame sent; otherwise it ends FAILED with the network error: an unreachable peer gets nothing, and a break at frame k leaves the frames before k sent whole and (k-1)·64 KiB counted |
| Send.FanOut | mesh_pulse/core/transfer.py:346-348 | one send per path, in order, with the message attached to the first path only |
| Send.FileClient.constructor | mesh_pulse/core/transfer.py:300-310 | no records and no workers |
| Send.FileClient.GetTransfers | mesh_pulse/core/transfer.py:350-353 | every registered record, in registration order |
| Send.FileClient.Send | mesh_pulse/core/transfer.py:312-331 | one worker is started for the request |
| Send.FileClient.SendMultiple | mesh_pulse/core/transfer.py:333-348 | the workers started are FanOut(...) |
| Send.FileClient.RegisterTransfer | mesh_pulse/core/transfer.py:424-427 | the record is appended |
| Send.FileClient.HashFile | mesh_pulse/core/transfer.py:367-375 | hashing the file block by block gives the digest of the whole file |
| Send.FileClient.SendChunks | mesh_pulse/core/transfer.py:400-407 | the chunk loop breaks iff the connection fails before the last chunk frame; it sends the frames and counts the bytes SendFileOver describes |
| Send.FileClient.SendWorker | mesh_pulse/core/transfer.py:355-422 | a missing file gives no record; otherwise one record named by the basename, ending as SendFileOver says, with the same bytes on the wire |
| Loopback.HeaderArrives | mesh_pulse/core/transfer.py:201-213 | the sender's header frame is parsed by the receiver into the sender's name, size, digest and message |
| Loopback.ChunksArrive | mesh_pulse/core/transfer.py:233-240 | the frames of the first k chunk tokens are read back as the first k chunks |
| Loopback.ReliableWire | mesh_pulse/core/transfer.py:398-405 | a reliable send puts the header frame and then every chunk frame on the wire |
| Loopback.AllChunksArrive | mesh_pulse/core/transfer.py:233-240 | all the chunk frames are read back as the whole file |
| Loopback.ReceiveWhenAllArrives | mesh_pulse/core/transfer.py:243-249 | once the header and all chunks arrive, the receiver's outcome depends only on the digest |
| Loopback.SendThenReceive | tests/test_loopback_transfer.py:85-121 | over a reliable connection the sender ends COMPLETE with the whole file counted, and the receiver records the sender's header, writes exactly the file and ends COMPLETE |
| Loopback.ReceiveWhenChunksFail | mesh_pulse/core/transfer.py:255-258 | a chunk failure after a good header ends the receiver FAILED with that error |
| Loopback.ChunkTokensRead | mesh_pulse/core/transfer.py:401-405 | every chunk token the sender makes fits a frame and decrypts to its chunk |
| Loopback.ChunksThenClosed | mesh_pulse/core/transfer.py:233-240 | when only the first k-1 chunk frames arrive before the connection closes, the chunk loop writes the first (k-1)·64 KiB of the file and stops with ClosedReadingLength |
| Loopback.ReadChunksOnClosed | mesh_pulse/utils/crypto.py:183-185 | a chunk loop with passes left on a closed connection stops with ClosedReadingLength |
| Loopback.BrokenWire | mesh_pulse/core/transfer.py:400-407 | a break at chunk frame k leaves the header frame and k-1 chunk frames on the wire, with (k-1)·64 KiB counted |
| Loopback.BrokenSendFailsReceive | mesh_pulse/core/transfer.py:233-258 | after such a break the receiver ends FAILED on a closed connection, having written exactly the first (k-1)·64 KiB of the file |
| Loopback.BrokenHeaderIsRefused | mesh_pulse/core/transfer.py:198-259 | a break before the header sends nothing, and the receiver registers no record |
| Events.Appended | mesh_pulse/tui/widgets/event_log.py:39-41 | a bounded deque append keeps `min(len+1, maxlen)` entries: the newest ones, in order, with the new entry last |
| Events.AppendedAll | mesh_pulse/tui/widgets/event_log.py:28-41 | after any series of `log` calls the buffer stays within `max_events` and holds exactly the newest `max_events` events ever logged, in order; nothing when `max_events` is 0 |
| Events.AppendedIsWindow | mesh_pulse/tui/widgets/event_log.py:28-41 | appending to a full buffer and keeping the newest equals keeping the newest of the longer stream |
| Events.EventLog.constructor | mesh_pulse/tui/widgets/event_log.py:28-30 | an empty buffer with the given bound |
| Events.EventLog.Log | mesh_pulse/tui/widgets/event_log.py:32-41 | the buffer becomes Appended(...) and stays within its bound |
| Events.EventLog.GetEvents | mesh_pulse/tui/widgets/event_log.py:52-55 | count ≥ 1 gives the newest `min(count, len)` events in order; count 0 gives every event; a negative count drops the first `-count` |
| Events.EventLog.Clear | mesh_pulse/tui/widgets/event_log.py:57-60 | afterwards `count` is 0 and `get_events` returns nothing for every count |
| Events.EventLog.Count | mesh_pulse/tui/widgets/event_log.py:62-65 | the number of events `get_events(0)` returns |
| Monitor.DefaultSnapshot | mesh_pulse/core/monitor.py:73-112 | `SystemMetrics()` is stamped now and every reading is zero |
| Monitor.Windowed | mesh_pulse/core/monitor.py:219-223 | with size ≥ 1 the window keeps the newest `min(len+1, size)` snapshots; size 0 keeps all; a negative size drops the first `-size`; unless the size is negative, the new snapshot is last |
| Monitor.WindowHoldsNewest | mesh_pulse/core/monitor.py:219-223 | after any series of samples, a window of size ≥ 1 holds exactly the newest `size` snapshots ever taken, in order |
| Monitor.ZeroSizeKeepsAll | mesh_pulse/core/monitor.py:222-223 | with size 0 the `[-0:]` slice never trims: every snapshot is kept |
| Monitor.SystemMonitor.constructor | mesh_pulse/core/monitor.py:142-155 | empty history, the default snapshot as latest, no previous sample |
| Monitor.SystemMonitor.RecordSample | mesh_pulse/core/monitor.py:194-229 | a failed sample changes nothing; a sample becomes latest and previous, and the history becomes Windowed(...); the window invariant is kept |
| Monitor.SystemMonitor.Latest | mesh_pulse/core/monitor.py:174-178 | after a sample, latest is that sample and it ends the history |
| Monitor.SystemMonitor.History | mesh_pulse/core/monitor.py:180-184 | the history is never longer than a positive size, and it ends with latest |
| Engine.Paths | mesh_pulse/core/transfer.py:501 | one path becomes a one-element list, and a list is kept as given |
| Engine.SecureTransfer.constructor | mesh_pulse/core/transfer.py:451-474 | the server and the client share one key and start with no records; the receive directory keeps its files |
| Engine.SecureTransfer.SendFile | mesh_pulse/core/transfer.py:488-504 | the sends issued are FanOut(...) of the paths |
| Engine.SecureTransfer.GetTransfers | mesh_pulse/core/transfer.py:506-508 | the server's records come first, then the client's |

## Left out

- Real cryptography: Fernet, AES-GCM, PBKDF2 (`derive_key`), key files (`load_or_generate_key`) and SHA-256 are parameters. Fernet encryption is one fixed function, so its random IV and timestamp are not modelled.
- Sockets, threads, locks and callbacks beyond counting them:
  - `FileServer.run`, `shutdown`, `start_server`/`stop_server`;
  - `PeerDiscovery.run`, `_build_beacon` and JSON encoding and decoding;
  - `UDPBroadcaster`, `start`/`stop` of the monitor.
  Each lock-guarded method is one atomic step.
- Floating point and psutil: metric sampling, the throughput deltas (monitor.py:199-215), `elapsed`, `speed_mbps`, `to_dict` rounding. A snapshot is an opaque map of readings; progress is computed on exact reals.
- UI, logging and the `panel_output.txt` mirror of `EventLog.log`.
- Peers.PeerManager.GetPeers: the order of the snapshot is not stated. A Python dict keeps insertion order; the model only states membership and size.
- Peers.PeerManager.GetPeers and Peers.PeerManager.GetPeer: the source returns the registry's live `Peer` objects (discovery.py:159-167), so a caller that mutates one changes the registry. The model returns `Peer` values, so this aliasing is not captured.
- Peers: `first_seen` and `last_seen` of a new peer are two separate `time.time()` calls in the source; the model uses one `now` for both.
- Discovery: `PeerMetrics(**metrics)` with unexpected keys raises `TypeError`; the model stores the metrics map as given.
- Header.ParseInt: Python's `int()` also accepts surrounding whitespace, digit-group underscores and non-ASCII digits; the model accepts only an optional sign and ASCII digits.
- Header.ParseInt: the model has no digit limit. On a CPython with the default int/str conversion limit, `int(parts[1])` (transfer.py:211) raises `ValueError` for a size field of more than 4300 digits. The header stage then fails before `_register_transfer`, so the source registers no record and writes no file. The model's ReceiveHeader accepts such a header, and ReceiveFrom registers a record for it.
- Send.SendFileOver: requires `Packable` because `struct.pack(">I", ...)` raising for a token of 4 GiB or more is not modelled.
- Send.SendFileOver: a failed `sendall` sends nothing of its frame; a partial write before the error is not modelled.
- Send.FileClient.SendWorker: the file exists or does not; an `open` or `stat` error outside the `try`, and the file changing between hashing and sending, are not modelled.
- Receive.FileServer.ReceiveFile: the destination file is opened before the chunk loop and written chunk by chunk. The model stores the written bytes once, after the loop.
- Receive.FileServer.ReceiveFile: the only names that make `open(dest, "wb")` fail are `""` and `..`, which name the receive directory or its parent. A name that matches an existing subdirectory of the receive directory raises `IsADirectoryError` in the source, but the model writes it as a file, because the receive directory holds only files here. Other I/O errors on the receive directory are not modelled either.
- Header.Basename: the model uses POSIX path rules. On Windows, `Path(...).name` also splits on `\`, so `..\evil` is stored as `evil`; the model keeps `..\evil` whole.
- Send.SendFileOver: UTF-8 encoding of the header is total here. In the source, a file name or message holding a lone surrogate makes `header_str.encode("utf-8")` (transfer.py:397) raise `UnicodeEncodeError`. That is not an `OSError`, so the worker thread dies and the record it registered stays ACTIVE, whereas the model ends every record COMPLETE or FAILED.
- Send.FileClient.SendWorker: the same uncaught `UnicodeEncodeError` case is not modelled, for the same reason.
- Records.ChunkCount: the model divides integers exactly. The source computes `math.ceil(filesize / CHUNK_SIZE)` in floating point (transfer.py:215), which agrees with the exact ceiling only for sizes up to 2^53 bytes. For a size above about 1.18e313, where the quotient exceeds the largest float, the division raises `OverflowError` before `_register_transfer` (transfer.py:217-224). The source then registers no record and writes no file, while the model's ReceiveFrom registers a record and reads chunk frames until the stream fails.
- Loopback.SendThenReceive: assumes a file name and a message without `|`. Such names are legal on POSIX, but the header format does not escape `|`; what the receiver does with them is stated by Header.PipeInNameIsMisread, Header.PipeInNameIsRefused and Header.PipeInMessageIsTruncated.
- Error texts: only the digest prefixes of a hash mismatch are kept; other exception messages are abstract reasons.
- `TransferInfo.started_at` and the `_notify` update callbacks are not modelled.
