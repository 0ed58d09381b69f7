/**
 * Transfer records and the shared transfer constants of
 * mesh_pulse/core/transfer.py: `TransferInfo`, its status lifecycle and
 * `progress`, the chunk count, the chunk slices, and the foreign primitives
 * (Fernet under the shared key, SHA-256, UTF-8) as function values.
 */
module Records {
  import opened Wrappers
  import opened Slices
  import Framing

  /** Bytes per encrypted chunk (`CHUNK_SIZE`): 64 KiB. */
  const CHUNK_SIZE: nat := 64 * 1024

  datatype Direction = Send | Recv

  datatype Status = Pending | Active | Complete | Failed

  /** Why a registered transfer failed; the text of each exception is not modelled. */
  datatype TransferError =
    | FrameFailed(frame: Framing.FrameError)        // raised by unpack_frame
    | InvalidToken                                  // Fernet authentication failure
    | IsADirectory(name: string)                    // open() of receive_dir / name hits a directory
    | HashMismatch(expected: string, actual: string)  // the first 12 characters of each digest
    | Network(reason: string)                       // OSError / ConnectionError while sending

  /**
   * The foreign primitives: Fernet encryption and decryption under the shared
   * key (None is `InvalidToken`), `hashlib.sha256(...).hexdigest()`, and UTF-8
   * encoding and decoding (None is `UnicodeDecodeError`).
   */
  datatype Crypto = Crypto(
    encrypt: Bytes -> Bytes,
    decrypt: Bytes -> Option<Bytes>,
    hexDigest: Bytes -> string,
    encodeText: string -> Bytes,
    decodeText: Bytes -> Option<string>)

  /** Decryption undoes encryption, decoding undoes encoding, and a hex digest never holds '|'. */
  ghost predicate Sound(c: Crypto)
  {
    && (forall data :: c.decrypt(c.encrypt(data)) == Some(data))
    && (forall text :: c.decodeText(c.encodeText(text)) == Some(text))
    && (forall data :: '|' !in c.hexDigest(data))
  }

  /** Every token fits the 4-byte length prefix, so `struct.pack(">I", ...)` never fails. */
  ghost predicate Packable(c: Crypto)
  {
    forall data :: |c.encrypt(data)| < Framing.LENGTH_LIMIT
  }

  /** `s[:12]`, the digest prefix quoted in a mismatch error. */
  function Prefix12(s: string): string
  {
    s[..Min(12, |s|)]
  }

  /** `progress`: percent done, 100 for an empty file, never above 100. */
  function ProgressOf(filesize: int, transferred: int): (p: real)
    ensures p <= 100.0
    ensures filesize == 0 ==> p == 100.0
    ensures filesize > 0 && transferred >= 0 ==> p >= 0.0
    ensures filesize > 0 && transferred >= filesize ==> p == 100.0
    ensures filesize > 0 && 2 * transferred == filesize ==> p == 50.0
    ensures filesize > 0 && 0 <= transferred < filesize ==> p < 100.0
  {
    if filesize == 0 then 100.0
    else
      var percent := transferred as real / filesize as real * 100.0;
      var p := if percent < 100.0 then percent else 100.0;
      if filesize > 0 then PercentBounds(transferred, filesize); p else p
  }

  /** How `transferred / filesize * 100` compares with 0, 50 and 100. */
  lemma PercentBounds(transferred: int, filesize: int)
    requires filesize > 0
    ensures transferred >= 0 ==> transferred as real / filesize as real * 100.0 >= 0.0
    ensures transferred >= filesize ==> transferred as real / filesize as real * 100.0 >= 100.0
    ensures transferred < filesize ==> transferred as real / filesize as real * 100.0 < 100.0
    ensures 2 * transferred == filesize ==> transferred as real / filesize as real * 100.0 == 50.0
  {
    var t, f := transferred as real, filesize as real;
    QuotientBounds(t, f, t / f);
  }

  /** Where the quotient `q` of `t` by a positive `f` lies, given only `q * f == t`. */
  lemma QuotientBounds(t: real, f: real, q: real)
    requires f > 0.0 && q * f == t
    ensures t >= 0.0 ==> q >= 0.0
    ensures t >= f ==> q >= 1.0
    ensures t < f ==> q < 1.0
    ensures 2.0 * t == f ==> q == 0.5
  {
    ProductSign(q, f, t);
    // q - 1 has the sign of t - f, and 2q - 1 that of 2t - f
    ProductSign(q - 1.0, f, t - f);
    ProductSign(2.0 * q - 1.0, f, 2.0 * t - f);
  }

  /** A product `p` with a positive factor `f` has the other factor's sign. */
  lemma ProductSign(x: real, f: real, p: real)
    requires f > 0.0 && p == x * f
    ensures x < 0.0 ==> p < 0.0
    ensures x > 0.0 ==> p > 0.0
  {
  }

  /** `math.ceil(filesize / CHUNK_SIZE) if filesize > 0 else 0`. */
  function ChunkCount(filesize: int): (count: nat)
    ensures filesize <= 0 ==> count == 0
    ensures filesize > 0 ==> (count - 1) * CHUNK_SIZE < filesize <= count * CHUNK_SIZE
  {
    if filesize > 0 then (filesize + CHUNK_SIZE - 1) / CHUNK_SIZE else 0
  }

  /** Every chunk a file is cut into starts inside the file. */
  lemma ChunkStartsInFile(size: int, j: nat)
    requires j < ChunkCount(size)
    ensures j * CHUNK_SIZE < size
  {
    assert j * CHUNK_SIZE <= (ChunkCount(size) - 1) * CHUNK_SIZE;
  }

  /** `f.read(n)` at offset `pos`: up to `n` bytes, empty at the end of the file. */
  function ReadAt(content: Bytes, pos: nat, n: nat): (block: Bytes)
    requires pos <= |content|
    ensures |block| == Min(n, |content| - pos)
    ensures block == content[pos..pos + |block|]
  {
    content[pos..Min(pos + n, |content|)]
  }

  /** Reading a block at the start of chunk `i` moves the position to the start of chunk `i + 1`. */
  lemma NextChunkStart(size: nat, i: nat, pos: nat)
    requires pos == Min(i * CHUNK_SIZE, size)
    ensures pos + Min(CHUNK_SIZE, size - pos) == Min((i + 1) * CHUNK_SIZE, size)
  {
    assert (i + 1) * CHUNK_SIZE == i * CHUNK_SIZE + CHUNK_SIZE;
  }

  /** The `i`-th 64 KiB slice of a file; only the last may be shorter. */
  function Chunk(content: Bytes, i: nat): Bytes
    requires i < ChunkCount(|content|)
  {
    ReadAt(content, i * CHUNK_SIZE, CHUNK_SIZE)
  }

  /** The slices a file is sent in, in order. */
  function Chunks(content: Bytes): (chunks: seq<Bytes>)
    ensures |chunks| == ChunkCount(|content|)
    ensures forall i :: 0 <= i < |chunks| ==> 1 <= |chunks[i]| <= CHUNK_SIZE
  {
    seq(ChunkCount(|content|), i requires 0 <= i < ChunkCount(|content|) => Chunk(content, i))
  }

  /** Reading a full block at the start of chunk `i` reads that chunk. */
  lemma ChunkAt(content: Bytes, i: nat, pos: nat)
    requires i < ChunkCount(|content|) && pos == Min(i * CHUNK_SIZE, |content|)
    ensures pos <= |content| && ReadAt(content, pos, CHUNK_SIZE) == Chunks(content)[i]
  {
    ChunkStartsInFile(|content|, i);
    assert Chunks(content)[i] == Chunk(content, i);
  }

  /** The concatenation of a list of byte strings. */
  function Concat(parts: seq<Bytes>): Bytes
    decreases |parts|
  {
    if parts == [] then [] else parts[0] + Concat(parts[1..])
  }

  /** The chunks from the `i`-th on cover the file from offset `i * CHUNK_SIZE`. */
  lemma {:induction false} ConcatChunksFrom(content: Bytes, i: nat)
    requires i <= ChunkCount(|content|)
    ensures Concat(Chunks(content)[i..]) == content[Min(i * CHUNK_SIZE, |content|)..]
    decreases ChunkCount(|content|) - i
  {
    var chunks := Chunks(content);
    if i < |chunks| {
      assert chunks[i..][1..] == chunks[i + 1..];
      ConcatChunksFrom(content, i + 1);
    }
  }

  /** Sent in order, the chunks are exactly the file. */
  lemma ChunksCoverFile(content: Bytes)
    ensures Concat(Chunks(content)) == content
  {
    ConcatChunksFrom(content, 0);
    assert Chunks(content)[0..] == Chunks(content);
  }

  /** Concatenation distributes over joining two lists. */
  lemma {:induction false} ConcatAppend(a: seq<Bytes>, b: seq<Bytes>)
    ensures Concat(a + b) == Concat(a) + Concat(b)
    decreases |a|
  {
    if a == [] {
      assert a + b == b;
    } else {
      assert (a + b)[1..] == a[1..] + b;
      ConcatAppend(a[1..], b);
      assert a[0] + (Concat(a[1..]) + Concat(b)) == (a[0] + Concat(a[1..])) + Concat(b);
    }
  }

  /** The first `k` chunks are the file up to offset `k * CHUNK_SIZE`. */
  lemma ConcatChunksPrefix(content: Bytes, k: nat)
    requires k <= ChunkCount(|content|)
    ensures Concat(Chunks(content)[..k]) == content[..Min(k * CHUNK_SIZE, |content|)]
  {
    var chunks := Chunks(content);
    assert chunks == chunks[..k] + chunks[k..];
    ConcatAppend(chunks[..k], chunks[k..]);
    ChunksCoverFile(content);
    ConcatChunksFrom(content, k);
    var m := Min(k * CHUNK_SIZE, |content|);
    assert Concat(chunks[..k]) + content[m..] == content;
    assert content == content[..m] + content[m..];
  }

  /** `TransferInfo`: one send or receive attempt, updated in place by the pipeline that owns it. */
  class TransferInfo {
    const filename: string
    const filesize: int
    const direction: Direction
    const peerIp: string
    var status: Status
    var bytesTransferred: int
    var error: Option<TransferError>

    constructor (filename: string, filesize: int, direction: Direction, peerIp: string, status: Status)
      ensures this.filename == filename && this.filesize == filesize
      ensures this.direction == direction && this.peerIp == peerIp
      ensures this.status == status && bytesTransferred == 0 && error == None
    {
      this.filename := filename;
      this.filesize := filesize;
      this.direction := direction;
      this.peerIp := peerIp;
      this.status := status;
      bytesTransferred := 0;
      error := None;
    }

    /** The `progress` property: 100 for an empty file and once every byte is counted, never above 100. */
    function Progress(): (p: real)
      reads this
      ensures p <= 100.0
      ensures filesize == 0 || (filesize > 0 && bytesTransferred >= filesize) ==> p == 100.0
      ensures filesize > 0 && 0 <= bytesTransferred ==> p >= 0.0
    {
      ProgressOf(filesize, bytesTransferred)
    }
  }
}
