/**
 * Length-prefixed framing over a stream socket (mesh_pulse/utils/crypto.py):
 * every message is a 4-byte big-endian length followed by that many bytes.
 * The socket is modelled as the bytes still to arrive plus a delivery schedule
 * that decides how many bytes each `recv` hands out.
 */
module Framing {
  import opened Wrappers

  /** Size of the `struct.pack(">I", ...)` length prefix. */
  const PREFIX_SIZE: nat := 4
  /** Default `max_size` of `unpack_frame`: 1 MiB. */
  const DEFAULT_MAX_FRAME: nat := 1024 * 1024
  /** Lengths `struct.pack(">I", ...)` can encode. */
  const LENGTH_LIMIT: nat := 0x1_0000_0000

  /** `struct.unpack(">I", b)`: the big-endian value of four bytes. */
  function DecodeLength(b: Bytes): (n: nat)
    requires |b| == PREFIX_SIZE
    ensures n < LENGTH_LIMIT
  {
    (b[0] as int) * 0x100_0000 + (b[1] as int) * 0x1_0000 + (b[2] as int) * 0x100 + b[3] as int
  }

  /** `struct.pack(">I", n)`: network byte order, most significant byte first. */
  function EncodeLength(n: nat): (b: Bytes)
    requires n < LENGTH_LIMIT
    ensures |b| == PREFIX_SIZE
    ensures DecodeLength(b) == n
  {
    LengthDigits(n);
    [n / 0x100_0000, n / 0x1_0000 % 0x100, n / 0x100 % 0x100, n % 0x100]
  }

  /** The four base-256 digits of a length below 2^32 and how they recombine. */
  lemma LengthDigits(n: nat)
    requires n < LENGTH_LIMIT
    ensures n / 0x100_0000 < 0x100
    ensures (n / 0x100_0000) * 0x100_0000 + (n / 0x1_0000 % 0x100) * 0x1_0000 + (n / 0x100 % 0x100) * 0x100 + n % 0x100 == n
  {
    var a := n / 0x100;
    var b := a / 0x100;
    var c := b / 0x100;
    assert n == a * 0x100 + n % 0x100;
    assert a == b * 0x100 + a % 0x100;
    assert b == c * 0x100 + b % 0x100;
    assert n / 0x1_0000 == b;
    assert n / 0x100_0000 == c;
  }

  /** Every four bytes are the encoding of their own decoded length. */
  lemma EncodeDecodeLength(b: Bytes)
    requires |b| == PREFIX_SIZE
    ensures EncodeLength(DecodeLength(b)) == b
  {
    var n := DecodeLength(b);
    assert n / 0x100_0000 == b[0];
    assert n / 0x1_0000 == (b[0] as int) * 0x100 + b[1] as int;
    assert n / 0x100 == (b[0] as int) * 0x1_0000 + (b[1] as int) * 0x100 + b[2] as int;
  }

  /** `pack_frame(data)`: the length prefix followed by the data. */
  function PackFrame(data: Bytes): (frame: Bytes)
    requires |data| < LENGTH_LIMIT
    ensures |frame| == PREFIX_SIZE + |data|
    ensures DecodeLength(frame[..PREFIX_SIZE]) == |data| && frame[PREFIX_SIZE..] == data
  {
    EncodeLength(|data|) + data
  }

  /** The errors `unpack_frame` raises. */
  datatype FrameError =
    | ClosedReadingLength            // ConnectionError before 4 prefix bytes arrived
    | TooLarge(length: nat, maxSize: int)  // ValueError "exceeds maximum allowed"
    | ClosedReadingData              // ConnectionError before the payload was complete

  /** What a read leaves behind: its result and the bytes not yet consumed. */
  datatype Read<T> = Read(result: T, rest: Bytes)

  /**
   * `_recv_exact(sock, n)` on a stream holding `s`: the next `n` bytes, or empty
   * when the stream ends first (and then everything has been consumed).
   */
  function ExactRead(s: Bytes, n: nat): Read<Bytes>
  {
    if |s| >= n then Read(s[..n], s[n..]) else Read([], [])
  }

  /** With enough bytes, exactly `n` are taken and the rest stays; otherwise nothing is returned and the stream is used up. */
  lemma ExactReadSpec(s: Bytes, n: nat)
    ensures var r := ExactRead(s, n);
      && (|s| >= n ==> r.result + r.rest == s && |r.result| == n)
      && (|s| < n ==> r.result == [] && r.rest == [])
  {
    if |s| >= n {
      assert s[..n] + s[n..] == s;
    }
  }

  /** `unpack_frame(sock, max_size)` on a stream holding `s`. */
  function UnpackFrame(s: Bytes, maxSize: int): Read<Result<Bytes, FrameError>>
  {
    var prefix := ExactRead(s, PREFIX_SIZE);
    if prefix.result == [] then Read(Err(ClosedReadingLength), prefix.rest)
    else
      var length := DecodeLength(prefix.result);
      if length > maxSize then Read(Err(TooLarge(length, maxSize)), prefix.rest)
      else
        var payload := ExactRead(prefix.rest, length);
        if payload.result == [] then Read(Err(ClosedReadingData), payload.rest)
        else Read(Ok(payload.result), payload.rest)
  }

  /**
   * What `unpack_frame` reads: a successful read consumed exactly one packed
   * frame, and only a frame of 1 to max_size bytes that had fully arrived is
   * read successfully; too short a stream for the prefix is a closed
   * connection; an oversized declared length is refused before any payload
   * is consumed; a zero length or a payload the peer did not finish sending
   * is reported as a connection closed while reading the data.
   */
  lemma UnpackFrameSpec(s: Bytes, maxSize: int)
    ensures var r := UnpackFrame(s, maxSize);
      && (r.result.Ok? ==> |r.result.value| < LENGTH_LIMIT && s == PackFrame(r.result.value) + r.rest)
      && (r.result.Ok? <==>
            |s| >= PREFIX_SIZE && 1 <= DecodeLength(s[..PREFIX_SIZE]) <= maxSize
            && |s| >= PREFIX_SIZE + DecodeLength(s[..PREFIX_SIZE]))
      && (|s| < PREFIX_SIZE ==> r.result == Err(ClosedReadingLength))
      && (|s| < PREFIX_SIZE ==> r.rest == [])
      && (|s| >= PREFIX_SIZE && DecodeLength(s[..PREFIX_SIZE]) > maxSize ==>
            r.result == Err(TooLarge(DecodeLength(s[..PREFIX_SIZE]), maxSize)) && r.rest == s[PREFIX_SIZE..])
      // A declared length of 0 is read as a closed connection and leaves the payload's successors unread.
      && (|s| >= PREFIX_SIZE && DecodeLength(s[..PREFIX_SIZE]) == 0 && maxSize >= 0 ==>
            r.result == Err(ClosedReadingData) && r.rest == s[PREFIX_SIZE..])
      // A payload cut short by the peer closing is a closed connection that consumed everything.
      && (|s| >= PREFIX_SIZE && DecodeLength(s[..PREFIX_SIZE]) <= maxSize
          && |s| < PREFIX_SIZE + DecodeLength(s[..PREFIX_SIZE]) ==>
            r.result == Err(ClosedReadingData) && r.rest == [])
  {
    if |s| >= PREFIX_SIZE {
      EncodeDecodeLength(s[..PREFIX_SIZE]);
    }
  }

  /**
   * Round trip: a stream that begins with `pack_frame(data)` yields `data` and
   * leaves exactly what followed the frame, for any payload of 1 to max_size bytes.
   */
  lemma UnpackPackedFrame(data: Bytes, rest: Bytes, maxSize: int)
    requires 1 <= |data| <= maxSize && |data| < LENGTH_LIMIT
    ensures UnpackFrame(PackFrame(data) + rest, maxSize) == Read(Ok(data), rest)
  {
    var s := PackFrame(data) + rest;
    assert s[..PREFIX_SIZE] == EncodeLength(|data|);
    assert s[PREFIX_SIZE..][..|data|] == data;
    assert s[PREFIX_SIZE..][|data|..] == rest;
  }

  /**
   * A declared length of 2 GiB is refused against the default 1 MiB limit as
   * soon as the prefix is read, without waiting for any payload.
   */
  lemma OversizedFrameIsRefused(rest: Bytes)
    ensures var huge := 2 * 1024 * 1024 * 1024;
      UnpackFrame(EncodeLength(huge) + rest, DEFAULT_MAX_FRAME) == Read(Err(TooLarge(huge, DEFAULT_MAX_FRAME)), rest)
  {
    var s := EncodeLength(2 * 1024 * 1024 * 1024) + rest;
    assert s[..PREFIX_SIZE] == EncodeLength(2 * 1024 * 1024 * 1024);
    assert s[PREFIX_SIZE..] == rest;
  }

  /**
   * `pack_frame(b"")` is a valid frame that `unpack_frame` cannot read back: the
   * empty payload is falsy and is reported as a closed connection, although the
   * stream is still open and nothing after the prefix is consumed.
   */
  lemma EmptyFrameReadsAsClosed(rest: Bytes, maxSize: int)
    requires maxSize >= 0
    ensures UnpackFrame(PackFrame([]) + rest, maxSize) == Read(Err(ClosedReadingData), rest)
  {
    var s := PackFrame([]) + rest;
    assert s[..PREFIX_SIZE] == EncodeLength(0);
    assert s[PREFIX_SIZE..] == rest;
  }

  /** The connected stream socket a frame is read from. */
  class Socket {
    /** Bytes the peer has sent that have not been received yet. */
    var incoming: Bytes
    /** How many bytes each successive `recv` delivers (0 or an empty schedule: all it may). */
    var schedule: seq<nat>

    constructor (incoming: Bytes, schedule: seq<nat>)
      ensures this.incoming == incoming && this.schedule == schedule
    {
      this.incoming := incoming;
      this.schedule := schedule;
    }

    /**
     * `sock.recv(bufsize)`: some non-empty prefix of what has arrived, at most
     * `bufsize` bytes; empty only when the peer has closed and nothing is left.
     */
    method Recv(bufsize: nat) returns (chunk: Bytes)
      modifies this
      ensures |chunk| <= bufsize && |chunk| <= |old(incoming)| && chunk == old(incoming)[..|chunk|]
      ensures old(incoming) != [] && bufsize > 0 ==> chunk != []
      ensures incoming == old(incoming)[|chunk|..]
    {
      var want := bufsize;
      if schedule != [] {
        if 0 < schedule[0] < bufsize {
          want := schedule[0];
        }
        schedule := schedule[1..];
      }
      if want > |incoming| {
        want := |incoming|;
      }
      chunk := incoming[..want];
      incoming := incoming[want..];
    }
  }

  /** `_recv_exact(sock, n)`: loops on `recv` until `n` bytes have been gathered. */
  method RecvExact(sock: Socket, n: nat) returns (data: Bytes)
    modifies sock
    ensures Read(data, sock.incoming) == ExactRead(old(sock.incoming), n)
  {
    var buf: Bytes := [];
    while |buf| < n
      invariant |buf| <= n
      invariant old(sock.incoming) == buf + sock.incoming
      decreases n - |buf|
    {
      // Each recv asks for at most the bytes still missing.
      var chunk := sock.Recv(n - |buf|);
      if chunk == [] {
        return [];
      }
      buf := buf + chunk;
    }
    data := buf;
  }

  /** `unpack_frame(sock, max_size)`: prefix, size check, then the payload. */
  method ReadFrame(sock: Socket, maxSize: int) returns (r: Result<Bytes, FrameError>)
    modifies sock
    ensures Read(r, sock.incoming) == UnpackFrame(old(sock.incoming), maxSize)
  {
    var rawLength := RecvExact(sock, PREFIX_SIZE);
    if rawLength == [] {
      return Err(ClosedReadingLength);
    }
    var length := DecodeLength(rawLength);
    if length > maxSize {
      return Err(TooLarge(length, maxSize));
    }
    var data := RecvExact(sock, length);
    if data == [] {
      return Err(ClosedReadingData);
    }
    r := Ok(data);
  }
}
