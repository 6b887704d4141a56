/** Authentication of a bitstream in blocks.  Pass one hashes a block chunk by chunk,
    stores the running hash after every chunk and checks the block's signature; pass two
    reads every chunk again, compares the running hash and only then releases the chunk to
    PCAP or to the decryptor.  The memory read is outside the chip, so two reads of the same
    address may differ. */
module PlPartition {
  import opened Common
  import opened PlDecrypt

  const SIG_SIZE: nat := 512
  const SHA3_LEN: nat := 48
  const READ_BUFFER_SIZE: nat := 57344 // 56 KB
  const HASH_BUFFER_SIZE: nat := 7168  // 7 KB

  datatype Result =
    | Ok | NotSecure | KeyMissing | CopyError | HashStoreTooSmall | PpkSpkError | SpkError
    | RsaInitError | RsaDecryptError | SignatureMismatch | ChunkHashMismatch | SinkError

  type Digest = d: seq<Byte> | |d| == SHA3_LEN witness seq(SHA3_LEN, _ => 0)

  /** SHA3, RSA and the fuses, as functions of the bytes they are given.  `running` is the
      hash register after the bytes so far, `final` the finished hash. */
  datatype Crypto = Crypto(
    running: seq<Byte> -> Digest, final: seq<Byte> -> Digest,
    efuseRsa: bool, ppkSpkOk: seq<Byte> -> bool, spkOk: seq<Byte> -> bool,
    rsaInitOk: seq<Byte> -> bool, rsaDecrypt: seq<Byte> -> Option<seq<Byte>>,
    signMatches: (seq<Byte>, Digest) -> bool, pcapDone: seq<Byte> -> bool)
  {
    predicate Trusts(cert: seq<Byte>) {
      (efuseRsa ==> ppkSpkOk(cert)) && spkOk(cert)
    }

    predicate Signs(cert: seq<Byte>, hash: Digest) {
      rsaInitOk(cert) && rsaDecrypt(cert).Some? && signMatches(rsaDecrypt(cert).value, hash)
    }
  }

  /** Read number `t` of `n` bytes at `src`. */
  type Device = (nat, nat, nat) -> Option<seq<Byte>>

  function CopyOut(d: Device, t: nat, src: nat, n: nat): (r: Option<seq<Byte>>)
    ensures r.Some? ==> |r.value| == n
  {
    var r := d(t, src, n);
    if r.Some? && |r.value| == n then r else None
  }

  /** Memory that always reads as `image`. */
  ghost predicate Steady(d: Device, image: seq<Byte>) {
    forall t: nat, src: nat, n: nat ::
      CopyOut(d, t, src, n).Some? ==> src + n <= |image| && CopyOut(d, t, src, n).value == image[src..src + n]
  }

  // ---------------------------------------------------------------- what a run leaves behind

  /** A block whose signature was accepted: the chunks hashed for it, and the chunks released. */
  datatype Block = Block(src: nat, certAddr: nat, cert: seq<Byte>, first: seq<seq<Byte>>, second: seq<seq<Byte>>)

  ghost predicate Signed(c: Crypto, b: Block) {
    && |b.cert| == AUTH_CERT_SIZE
    && c.Trusts(b.cert)
    && c.Signs(b.cert, c.final(Concat(b.first) + b.cert[..AUTH_CERT_SIZE - SIG_SIZE]))
  }

  /** Pass two visited the same chunks as pass one, and every running hash it saw was the
      stored one. */
  ghost predicate Rechecked(c: Crypto, b: Block) {
    && |b.second| <= |b.first|
    && (forall i :: 0 <= i < |b.second| ==> |b.second[i]| == |b.first[i]| && |b.second[i]| % 4 == 0)
    && (forall i :: 0 < i <= |b.second| ==> HashesMeet(c, b, i))
  }

  ghost predicate HashesMeet(c: Crypto, b: Block, i: nat)
    requires i <= |b.second| <= |b.first|
  {
    c.running(Concat(b.second[..i])) == c.running(Concat(b.first[..i]))
  }

  predicate Complete(b: Block) {
    |b.second| == |b.first|
  }

  predicate AllComplete(blocks: seq<Block>) {
    forall i :: 0 <= i < |blocks| ==> Complete(blocks[i])
  }

  /** The pairs of inputs this run compared by their running hash are not a collision. */
  ghost predicate NoCollision(c: Crypto, b: Block)
    requires |b.second| <= |b.first|
  {
    var x, y := Concat(b.second), Concat(b.first[..|b.second|]);
    c.running(x) == c.running(y) ==> x == y
  }

  /** Some read of the device returned this chunk. */
  ghost predicate ReadAt(d: Device, src: nat, chunk: seq<Byte>) {
    exists t: nat :: CopyOut(d, t, src, |chunk|) == Some(chunk)
  }

  /** Consecutive chunks, each from the address where the one before it ended. */
  ghost predicate Fetched(d: Device, src: nat, chunks: seq<seq<Byte>>) {
    if chunks == [] then true
    else
      var front, last := chunks[..|chunks| - 1], chunks[|chunks| - 1];
      Fetched(d, src, front) && ReadAt(d, src + |Concat(front)|, last)
  }

  ghost function Released(blocks: seq<Block>): seq<seq<Byte>> {
    if blocks == [] then [] else Released(blocks[..|blocks| - 1]) + blocks[|blocks| - 1].second
  }

  ghost function SignedBytes(blocks: seq<Block>): seq<Byte> {
    if blocks == [] then [] else SignedBytes(blocks[..|blocks| - 1]) + Concat(blocks[|blocks| - 1].first)
  }

  lemma {:induction false} ConcatAppend(a: seq<seq<Byte>>, b: seq<seq<Byte>>)
    ensures Concat(a + b) == Concat(a) + Concat(b)
    decreases |b|
  {
    if b == [] {
      assert a + b == a;
    } else {
      var n := |b| - 1;
      ConcatAppend(a, b[..n]);
      assert (a + b)[..|a + b| - 1] == a + b[..n] && (a + b)[|a + b| - 1] == b[n];
      AppendAssoc(Concat(a), Concat(b[..n]), b[n]);
    }
  }

  /** The chunks of both passes end at the same offsets. */
  lemma {:induction false} SameOffsets(a: seq<seq<Byte>>, b: seq<seq<Byte>>)
    requires |a| == |b| && forall i :: 0 <= i < |a| ==> |a[i]| == |b[i]|
    ensures |Concat(a)| == |Concat(b)|
    decreases |a|
  {
    if a != [] {
      SameOffsets(a[..|a| - 1], b[..|b| - 1]);
    }
  }

  lemma ConcatPrefix(s: seq<seq<Byte>>, n: nat)
    requires n <= |s|
    ensures Concat(s[..n]) <= Concat(s)
  {
    assert s == s[..n] + s[n..];
    ConcatAppend(s[..n], s[n..]);
  }

  /** What pass two released of one block is the beginning of what was signed. */
  lemma ReleasedOfBlock(c: Crypto, b: Block)
    requires Rechecked(c, b) && NoCollision(c, b)
    ensures Concat(b.second) <= Concat(b.first)
    ensures Complete(b) ==> Concat(b.second) == Concat(b.first)
  {
    ConcatPrefix(b.first, |b.second|);
    if b.second != [] {
      assert b.second[..|b.second|] == b.second && HashesMeet(c, b, |b.second|);
    }
    if Complete(b) {
      assert b.first[..|b.second|] == b.first;
    }
  }

  ghost predicate Sound(c: Crypto, blocks: seq<Block>) {
    && (forall i :: 0 <= i < |blocks| ==> Signed(c, blocks[i]) && Rechecked(c, blocks[i]))
    && (blocks == [] || AllComplete(blocks[..|blocks| - 1]))
  }

  /** Whatever the memory returned and wherever the run stopped, the bytes released are a
      prefix of the bytes whose signature was checked; all of them if no block is partial. */
  lemma {:induction false} OnlySignedBytes(c: Crypto, blocks: seq<Block>)
    requires Sound(c, blocks)
    requires forall i :: 0 <= i < |blocks| ==> NoCollision(c, blocks[i])
    ensures Concat(Released(blocks)) <= SignedBytes(blocks)
    ensures AllComplete(blocks) ==> Concat(Released(blocks)) == SignedBytes(blocks)
    decreases |blocks|
  {
    if blocks != [] {
      hide Signed;
      hide Rechecked;
      hide NoCollision;
      var n := |blocks| - 1;
      OnlySignedBytes(c, blocks[..n]);
      ReleasedOfBlock(c, blocks[n]);
      ConcatAppend(Released(blocks[..n]), blocks[n].second);
    }
  }

  // ---------------------------------------------------------------- why a block is refused

  /** A copy out of the `n` bytes at `src` fails at some time. */
  ghost predicate CopyFails(d: Device, src: nat, n: nat) {
    exists t: nat, at: nat, m: nat :: src <= at && at + m <= src + n && CopyOut(d, t, at, m).None?
  }

  /** A certificate the device returned. */
  ghost predicate CertAt(d: Device, addr: nat, cert: seq<Byte>) {
    |cert| == AUTH_CERT_SIZE && ReadAt(d, addr, cert)
  }

  /** The signature of a certificate can be decrypted, but belongs to other bytes. */
  predicate Misfits(c: Crypto, cert: seq<Byte>, bytes: seq<Byte>)
    requires |cert| == AUTH_CERT_SIZE
  {
    && c.rsaDecrypt(cert).Some?
    && !c.signMatches(c.rsaDecrypt(cert).value, c.final(bytes + cert[..AUTH_CERT_SIZE - SIG_SIZE]))
  }

  /** Two reads of the same stretch of memory that hash differently. */
  ghost predicate Disagree(c: Crypto, d: Device, src: nat, len: nat) {
    exists a, b :: Fetched(d, src, a) && Fetched(d, src, b) && |Concat(a)| == |Concat(b)| <= len
                   && c.running(Concat(a)) != c.running(Concat(b))
  }

  /** Each refusal of a block of `len` bytes at `src` has its own reason. */
  ghost predicate Excuse(c: Crypto, d: Device, p: Params, r: Result, src: nat, len: nat, certAddr: nat) {
    match r
    case CopyError => CopyFails(d, src, len) || CopyFails(d, certAddr, AUTH_CERT_SIZE)
    case HashStoreTooSmall => p.TooManyChunks(len)
    case PpkSpkError => c.efuseRsa && exists cert :: CertAt(d, certAddr, cert) && !c.ppkSpkOk(cert)
    case SpkError => exists cert :: CertAt(d, certAddr, cert) && !c.spkOk(cert)
    case RsaInitError => exists cert :: CertAt(d, certAddr, cert) && !c.rsaInitOk(cert)
    case RsaDecryptError => exists cert :: CertAt(d, certAddr, cert) && c.rsaDecrypt(cert).None?
    case SignatureMismatch => exists cert, chunks :: MisfitAt(c, d, src, len, certAddr, cert, chunks)
    case ChunkHashMismatch => Disagree(c, d, src, len)
    case _ => false
  }

  lemma TwoReadings(c: Crypto, d: Device, src: nat, len: nat, a: seq<seq<Byte>>, b: seq<seq<Byte>>)
    requires Fetched(d, src, a) && Fetched(d, src, b) && |Concat(a)| == |Concat(b)| <= len
    requires c.running(Concat(a)) != c.running(Concat(b))
    ensures Disagree(c, d, src, len)
  {
  }

  /** What the steps of a block report, put as its excuse. */
  lemma Excused(c: Crypto, d: Device, p: Params, r: Result, src: nat, len: nat, certAddr: nat, cert: seq<Byte>,
                chunks: seq<seq<Byte>>)
    requires CertAt(d, certAddr, cert)
    requires match r
             case CopyError => CopyFails(d, src, len)
             case HashStoreTooSmall => p.TooManyChunks(len)
             case PpkSpkError => c.efuseRsa && !c.ppkSpkOk(cert)
             case SpkError => !c.spkOk(cert)
             case RsaInitError => !c.rsaInitOk(cert)
             case RsaDecryptError => c.rsaDecrypt(cert).None?
             case SignatureMismatch => MisfitAt(c, d, src, len, certAddr, cert, chunks)
             case ChunkHashMismatch => Disagree(c, d, src, len)
             case _ => false
    ensures Excuse(c, d, p, r, src, len, certAddr)
  {
  }

  ghost predicate MisfitAt(c: Crypto, d: Device, src: nat, len: nat, certAddr: nat, cert: seq<Byte>,
                           chunks: seq<seq<Byte>>)
  {
    && CertAt(d, certAddr, cert) && Fetched(d, src, chunks) && |Concat(chunks)| == len
    && Misfits(c, cert, Concat(chunks))
  }

  // ---------------------------------------------------------------- layout

  /** Blocks of `blockSize` bytes from `start` on, the last one cut off at acOffset; block i goes
      with certificate i. */
  ghost predicate Tiles(blocks: seq<Block>, start: nat, blockSize: nat, acOffset: nat) {
    forall i :: 0 <= i < |blocks| ==> TileAt(blocks[i], i, start, blockSize, acOffset)
  }

  ghost predicate TileAt(b: Block, i: nat, start: nat, blockSize: nat, acOffset: nat) {
    && b.src == start + i * blockSize < acOffset
    && b.certAddr == acOffset + i * AUTH_CERT_SIZE
    && |Concat(b.first)| == if b.src + blockSize <= acOffset then blockSize else acOffset - b.src
  }

  /** `n` blocks cover `d` bytes. */
  predicate Covers(n: nat, blockSize: nat, d: nat) {
    n > 0 && (n - 1) * blockSize < d <= n * blockSize
  }

  lemma CoversUnique(m: nat, n: nat, blockSize: nat, d: nat)
    requires Covers(m, blockSize, d) && Covers(n, blockSize, d)
    ensures m == n
  {
    MulMono(m, n - 1, blockSize);
    MulMono(n, m - 1, blockSize);
  }

  /** The length the code computes for a last block that is not full, in 32-bit arithmetic
      and with the block number in a byte. */
  function LastLen(totalLen: nat, index: nat, blockSize: nat): nat {
    (totalLen - index * AUTH_CERT_SIZE - (index - 1) * blockSize) % U32
  }

  /** Bootgen's block sizes, 2 << s megabytes for s in 1..7. */
  predicate BootgenBlock(blockSize: nat) {
    blockSize in {0x400000, 0x800000, 0x1000000, 0x2000000, 0x4000000, 0x8000000, 0x10000000}
  }

  /** With `n` blocks and one certificate for each, the computed length of a partial last block
      is what is left of the data exactly when the block number still fits its byte. */
  lemma LastLenExact(d: nat, n: nat, blockSize: nat)
    requires BootgenBlock(blockSize) && Covers(n, blockSize, d) && d < n * blockSize
    requires d + n * AUTH_CERT_SIZE < U32
    ensures LastLen(d + n * AUTH_CERT_SIZE, n % 0x100, blockSize) == d - (n - 1) * blockSize <==> n < 0x100
  {
    var k := n / 0x100;
    var left := d - (n - 1) * blockSize;
    var shift := 0x100 * (k * (AUTH_CERT_SIZE + blockSize));
    LastLenShift(d, n, blockSize);
    if k > 0 {
      ShiftIsVisible(k, blockSize);
    }
    ModShift(left, shift);
  }

  /** 256 blocks of 4 MB, the last of them one word short: its length comes out far too long. */
  lemma TooManyBlocks()
    ensures var n, blockSize := 0x100, 0x400000;
            var d := n * blockSize - 4;
            && Covers(n, blockSize, d) && d < n * blockSize && d + n * AUTH_CERT_SIZE < U32
            && d - (n - 1) * blockSize == 0x3FFFFC
            && LastLen(d + n * AUTH_CERT_SIZE, n % 0x100, blockSize) == 0x404EBFFC
  {
  }

  lemma ModShift(left: nat, shift: nat)
    requires 0 < left < U32 && shift < 2 * U32
    ensures (left + shift) % U32 == left <==> shift == 0 || shift == U32
  {
  }

  lemma LastLenShift(d: nat, n: nat, blockSize: nat)
    requires BootgenBlock(blockSize) && Covers(n, blockSize, d) && d < n * blockSize
    requires d + n * AUTH_CERT_SIZE < U32
    ensures var left := d - (n - 1) * blockSize;
            var shift := 0x100 * (n / 0x100 * (AUTH_CERT_SIZE + blockSize));
            && 0 < left < blockSize && shift < U32 + blockSize
            && (n >= 0x100 ==> shift > 0)
            && LastLen(d + n * AUTH_CERT_SIZE, n % 0x100, blockSize) == (left + shift) % U32
  {
    hide BootgenBlock;
    var k, low, c := n / 0x100, n % 0x100, AUTH_CERT_SIZE + blockSize;
    SplitByte(n, c);
    Spread(n, AUTH_CERT_SIZE, blockSize);
    Spread(low, AUTH_CERT_SIZE, blockSize);
    LastLenSum(d, n * AUTH_CERT_SIZE, n * blockSize, low, low * blockSize, 0x100 * (k * c), blockSize);
    if n >= 0x100 {
      ShiftPositive(k, blockSize);
    }
  }

  lemma ShiftPositive(k: nat, blockSize: nat)
    requires k > 0
    ensures 0x100 * (k * (AUTH_CERT_SIZE + blockSize)) > 0
  {
    MulMono(1, k, AUTH_CERT_SIZE + blockSize);
  }

  /** The sum behind it, with every product as one number. */
  lemma LastLenSum(d: nat, certs: nat, data: nat, low: nat, lowData: nat, shift: nat, blockSize: nat)
    requires certs + data == shift + (low * AUTH_CERT_SIZE + lowData) && lowData == low * blockSize
    requires d < data && data - blockSize < d && d + certs < U32
    ensures shift < U32 + blockSize
    ensures LastLen(d + certs, low, blockSize) == (d - (data - blockSize) + shift) % U32
  {
    OneBlockLess(low, blockSize);
  }

  lemma OneBlockLess(n: int, blockSize: int)
    ensures (n - 1) * blockSize == n * blockSize - blockSize
  {
  }

  lemma SplitByte(n: nat, c: nat)
    ensures n * c == 0x100 * (n / 0x100 * c) + n % 0x100 * c
  {
    assert n == 0x100 * (n / 0x100) + n % 0x100;
    assert 0x100 * (n / 0x100 * c) == 0x100 * (n / 0x100) * c;
  }

  lemma Spread(n: nat, a: nat, b: nat)
    ensures n * (a + b) == n * a + n * b && (n - 1) * b == n * b - b
  {
  }

  /** Wrapping the block number never shifts the length by exactly 2^32. */
  lemma ShiftIsVisible(k: nat, blockSize: nat)
    requires BootgenBlock(blockSize)
    ensures 0x100 * (k * (AUTH_CERT_SIZE + blockSize)) != U32
  {
    var c := AUTH_CERT_SIZE + blockSize;
    assert k * c in {0x400EC0 * k, 0x800EC0 * k, 0x1000EC0 * k, 0x2000EC0 * k, 0x4000EC0 * k, 0x8000EC0 * k,
        0x10000EC0 * k};
  }

  // ---------------------------------------------------------------- the code, in place

  /** The stored hash at byte offset `at`. */
  function HashAt(hashes: seq<Byte>, at: nat): seq<Byte>
    requires at + SHA3_LEN <= |hashes|
  {
    hashes[at..at + SHA3_LEN]
  }

  /** Slot i holds the running hash after chunk i. */
  ghost predicate Stored(c: Crypto, hashes: seq<Byte>, chunks: seq<seq<Byte>>) {
    if chunks == [] then true
    else
      var n := |chunks| - 1;
      && |chunks| * SHA3_LEN <= |hashes|
      && Stored(c, hashes, chunks[..n]) && HashAt(hashes, n * SHA3_LEN) == c.running(Concat(chunks))
  }

  lemma {:induction false} StoredFrame(c: Crypto, before: seq<Byte>, after: seq<Byte>, chunks: seq<seq<Byte>>)
    requires Stored(c, before, chunks) && |before| == |after|
    requires |chunks| * SHA3_LEN <= |before| && before[..|chunks| * SHA3_LEN] == after[..|chunks| * SHA3_LEN]
    ensures Stored(c, after, chunks)
    decreases |chunks|
  {
    if chunks != [] {
      var n := |chunks| - 1;
      var m := |chunks| * SHA3_LEN;
      assert before[..n * SHA3_LEN] == before[..m][..n * SHA3_LEN];
      assert HashAt(before, n * SHA3_LEN) == before[..m][n * SHA3_LEN..m];
      StoredFrame(c, before, after, chunks[..n]);
    }
  }

  /** One more chunk: its hash goes into the next slot. */
  lemma ChunkStored(c: Crypto, d: Device, src: nat, before: seq<Byte>, after: seq<Byte>, first: seq<seq<Byte>>,
                    chunk: seq<Byte>)
    requires Stored(c, before, first) && Fetched(d, src, first)
    requires ReadAt(d, src + |Concat(first)|, chunk)
    requires (|first| + 1) * SHA3_LEN <= |before|
    requires after == before[..|first| * SHA3_LEN] + c.running(Concat(first) + chunk)
             + before[(|first| + 1) * SHA3_LEN..]
    ensures var all := first + [chunk];
            Stored(c, after, all) && Fetched(d, src, all) && Concat(all) == Concat(first) + chunk
  {
    var all := first + [chunk];
    assert all[..|first|] == first;
    StoredFrame(c, before, after, first);
    assert HashAt(after, |first| * SHA3_LEN) == c.running(Concat(all));
  }

  lemma {:induction false} StoredAt(c: Crypto, hashes: seq<Byte>, chunks: seq<seq<Byte>>, i: nat)
    requires Stored(c, hashes, chunks) && i < |chunks|
    ensures i * SHA3_LEN + SHA3_LEN <= |hashes| && HashAt(hashes, i * SHA3_LEN) == c.running(Concat(chunks[..i + 1]))
    decreases |chunks|
  {
    var n := |chunks| - 1;
    if i == n {
      assert chunks[..i + 1] == chunks;
    } else {
      StoredAt(c, hashes, chunks[..n], i);
      assert chunks[..n][..i + 1] == chunks[..i + 1];
    }
  }

  /** Offset of chunk i. */
  function ChunkOff(chunkSize: nat, i: nat): nat {
    chunkSize * i
  }

  /** A block of `len` bytes in `n` chunks: full ones, and the last one takes what is left. */
  predicate Splits(n: nat, chunkSize: nat, len: nat) {
    n > 0 && ChunkOff(chunkSize, n - 1) <= len <= ChunkOff(chunkSize, n)
  }

  function ChunkLen(i: nat, n: nat, chunkSize: nat, len: nat): (k: nat)
    requires Splits(n, chunkSize, len)
  {
    if i + 1 < n then chunkSize else len - ChunkOff(chunkSize, n - 1)
  }

  /** How many chunks a block of `len` bytes has. */
  function ChunksOf(len: nat, chunkSize: nat): (n: nat)
    requires chunkSize > 0
  {
    if len > chunkSize then len / chunkSize + (if len % chunkSize > 0 then 1 else 0) else 1
  }

  /** Pass one saw the chunks of a block of its length. */
  ghost predicate Shaped(b: Block, chunkSize: nat) {
    && chunkSize > 0
    && var len := |Concat(b.first)|;
    && |b.first| == ChunksOf(len, chunkSize) && Splits(|b.first|, chunkSize, len)
    && Chunked(b.first, |b.first|, chunkSize, len)
  }

  ghost predicate Chunked(chunks: seq<seq<Byte>>, n: nat, chunkSize: nat, len: nat)
    requires Splits(n, chunkSize, len)
  {
    forall i :: 0 <= i < |chunks| ==> |chunks[i]| == ChunkLen(i, n, chunkSize, len)
  }

  predicate Words(n: int) {
    n % 4 == 0
  }

  /** What both passes need to know about chunk i. */
  lemma ChunkStep(i: nat, n: nat, chunkSize: nat, len: nat)
    requires i < n && Splits(n, chunkSize, len)
    ensures ChunkOff(chunkSize, i) <= len
    ensures var left := len - ChunkOff(chunkSize, i);
            && (i < n - 1 ==> chunkSize <= left && ChunkLen(i, n, chunkSize, len) == chunkSize)
            && (i == n - 1 ==> left <= chunkSize && ChunkLen(i, n, chunkSize, len) == left)
    ensures ChunkOff(chunkSize, i + 1) == ChunkOff(chunkSize, i) + chunkSize
    ensures Words(chunkSize) && Words(len) ==> Words(ChunkLen(i, n, chunkSize, len))
  {
    MulMono(i, n - 1, chunkSize);
    if i < n - 1 {
      MulMono(i + 1, n - 1, chunkSize);
    }
    if Words(chunkSize) && Words(len) {
      WholeWords(chunkSize, n - 1, len);
    }
  }

  lemma MulMono(a: nat, b: nat, m: nat)
    ensures a <= b ==> m * a <= m * b
  {
  }

  /** The caller's parameters; `secureAes` says an AES instance was supplied, `kupKeyMissing`
      that its key source is KUP without a key. */
  datatype Params = Params(
    isAuthenticated: bool, isEncrypted: bool, startAddress: nat, totalLen: nat, chunkSize: nat,
    acOffset: nat, blockSize: nat, noOfHashs: nat, secureAes: bool, kupKeyMissing: bool, chunkBase: nat)
  {
    /** The partition is authenticated, and a key is there if it is encrypted. */
    predicate Admitted() {
      isAuthenticated && (isEncrypted ==> secureAes && !kupKeyMissing)
    }

    /** A block of `len` bytes has more chunks than there are slots for hashes. */
    predicate TooManyChunks(len: nat) {
      noOfHashs == 0 || len > ChunkOff(chunkSize, noOfHashs)
    }

    predicate Valid() {
      && 0 < chunkSize <= READ_BUFFER_SIZE && Words(chunkSize)
      && 0 < blockSize < U32 && Words(blockSize)
      && totalLen < U32 && Words(totalLen)
      && noOfHashs * SHA3_LEN <= HASH_BUFFER_SIZE
      && chunkBase > 0
    }
  }

  class Partition {
    const p: Params
    const device: Device
    const crypto: Crypto
    const beyond: Memory // what lies around the chunk buffer
    const chunkBuffer: array<Byte>
    const hashsOfChunks: array<Byte>
    const authCertBuf: array<Byte>
    const aes: Decryptor
    var clock: nat
    var pcap: seq<Byte>
    ghost var blocks: seq<Block>       // blocks whose signature was accepted, in order
    ghost var released: seq<seq<Byte>> // chunks given to the sink
    ghost var around: seq<Memory>      // what lay around each of them

    constructor (p: Params, device: Device, crypto: Crypto, beyond: Memory, engine: Engine)
      requires p.Valid()
      ensures this.p == p && this.device == device && this.crypto == crypto && this.beyond == beyond
      ensures aes.engine == engine && Buffers() && blocks == [] && released == [] && Flowing()
      ensures fresh(chunkBuffer) && fresh(hashsOfChunks) && fresh(authCertBuf) && fresh(aes)
    {
      this.p, this.device, this.crypto, this.beyond := p, device, crypto, beyond;
      chunkBuffer := new Byte[READ_BUFFER_SIZE](_ => 0);
      hashsOfChunks := new Byte[HASH_BUFFER_SIZE](_ => 0);
      authCertBuf := new Byte[AUTH_CERT_SIZE](_ => 0);
      aes := new Decryptor(engine);
      clock, pcap, blocks, released, around := 0, [], [], [], [];
    }

    ghost predicate Buffers() {
      && p.Valid()
      && chunkBuffer.Length == READ_BUFFER_SIZE && hashsOfChunks.Length == HASH_BUFFER_SIZE
      && authCertBuf.Length == AUTH_CERT_SIZE
      && chunkBuffer != hashsOfChunks && chunkBuffer != authCertBuf && hashsOfChunks != authCertBuf
    }

    /** The sink holds exactly the released chunks. */
    ghost predicate Delivered()
      reads this, aes
    {
      && Fits(released) && |around| == |released|
      && if p.isEncrypted
         then pcap == [] && aes.State() == FeedAll(aes.engine, released, p.chunkBase, around).carry
         else pcap == Concat(released) && aes.State() == COLD
    }

    /** ... and the decryptor has not failed. */
    ghost predicate Flowing()
      reads this, aes
    {
      Delivered() && (p.isEncrypted ==> FeedAll(aes.engine, released, p.chunkBase, around).status == Success)
    }

    /** PCAP or the decryptor has not taken what was released last. */
    ghost predicate Refused()
      reads this, aes
    {
      && Fits(released) && |around| == |released|
      && if p.isEncrypted then FeedAll(aes.engine, released, p.chunkBase, around).status != Success
         else !crypto.pcapDone(pcap)
    }

    method CopyData(dst: array<Byte>, src: nat, n: nat) returns (ok: bool)
      requires n <= dst.Length
      modifies this`clock, dst
      ensures clock == old(clock) + 1
      ensures ok <==> CopyOut(device, old(clock), src, n).Some?
      ensures ok ==> dst[..n] == CopyOut(device, old(clock), src, n).value
    {
      var r := CopyOut(device, clock, src, n);
      clock := clock + 1;
      ok := r.Some?;
      if ok {
        forall i | 0 <= i < n {
          dst[i] := r.value[i];
        }
      }
    }

    /** What pass one knows after hashing the chunks `first`. */
    ghost predicate Hashed(src: nat, first: seq<seq<Byte>>)
      reads hashsOfChunks
    {
      Stored(crypto, hashsOfChunks[..], first) && Fetched(device, src, first)
    }

    /** The next chunk of pass one: copy it, hash it, store the running hash at `hash`. */
    method PassOneChunk(src: nat, n: nat, sha: seq<Byte>, hash: nat, ghost block: nat, ghost before: seq<seq<Byte>>)
      returns (ok: bool, sha': seq<Byte>, ghost first: seq<seq<Byte>>)
      requires Buffers() && n <= READ_BUFFER_SIZE && hash + SHA3_LEN <= HASH_BUFFER_SIZE
      requires Hashed(block, before) && sha == Concat(before)
      requires src == block + |sha| && hash == |before| * SHA3_LEN
      modifies this`clock, chunkBuffer, hashsOfChunks
      ensures Hashed(block, first) && sha' == Concat(first)
      ensures ok <==> CopyOut(device, old(clock), src, n).Some?
      ensures !ok ==> first == before
      ensures ok ==>
                && |first| == |before| + 1 && first[..|before|] == before
                && |first[|before|]| == n && |sha'| == |sha| + n
    {
      sha', first := sha, before;
      ok := CopyData(chunkBuffer, src, n);
      if ok {
        var chunk := chunkBuffer[..n];
        ghost var stored := hashsOfChunks[..];
        var d := crypto.running(sha + chunk);
        forall j | 0 <= j < SHA3_LEN {
          hashsOfChunks[hash + j] := d[j];
        }
        assert hashsOfChunks[..] == stored[..hash] + d + stored[hash + SHA3_LEN..];
        ChunkStored(crypto, device, block, stored, hashsOfChunks[..], before, chunk);
        sha', first := sha + chunk, before + [chunk];
      }
    }

    /** Pass one over a block of `n` chunks. */
    method HashBlock(src: nat, len: nat, n: nat) returns (r: Result, sha: seq<Byte>, ghost first: seq<seq<Byte>>)
      requires Buffers() && n <= p.noOfHashs && Splits(n, p.chunkSize, len)
      modifies this`clock, chunkBuffer, hashsOfChunks
      ensures r == Ok || r == CopyError
      ensures r == CopyError ==> CopyFails(device, src, len)
      ensures r == Ok ==> |first| == n && Chunked(first, n, p.chunkSize, len)
      ensures r == Ok ==> sha == Concat(first) && |sha| == len
      ensures r == Ok ==> Stored(crypto, hashsOfChunks[..], first)
      ensures r == Ok ==> Fetched(device, src, first)
    {
      hide Hashed;
      hide Concat;
      NothingHashed(src);
      sha := [];
      var hashDataLen := len;
      var size := p.chunkSize;
      var hash := 0;
      first := [];
      for index := 0 to n
        invariant index < n ==> hash == index * SHA3_LEN && size == p.chunkSize
        invariant index < n ==> |sha| == ChunkOff(p.chunkSize, index) && |sha| + hashDataLen == len
        invariant index == n ==> |sha| == len
        invariant |first| == index && Chunked(first, n, p.chunkSize, len)
        invariant sha == Concat(first) && Hashed(src, first)
      {
        ChunkStep(index, n, p.chunkSize, len);
        if index == n - 1 || hashDataLen < p.chunkSize {
          size := hashDataLen;
        }
        var offset := src + ChunkOff(p.chunkSize, index);
        var ok;
        ok, sha, first := PassOneChunk(offset, size, sha, hash, src, first);
        if !ok {
          r := CopyError;
          return;
        }
        if index + 1 < n {
          hashDataLen := hashDataLen - p.chunkSize;
          hash := hash + SHA3_LEN;
        }
      }
      WhatIsHashed(src, first);
      r := Ok;
    }

    lemma NothingHashed(src: nat)
      ensures Hashed(src, []) && Concat([]) == []
    {
    }

    lemma WhatIsHashed(src: nat, first: seq<seq<Byte>>)
      requires Hashed(src, first)
      ensures Stored(crypto, hashsOfChunks[..], first) && Fetched(device, src, first)
    {
    }

    /** Pass one, then the RSA check of the block's hash against its certificate. */
    method SignVer(src: nat, len: nat, n: nat) returns (r: Result, ghost first: seq<seq<Byte>>)
      requires Buffers() && n <= p.noOfHashs && Splits(n, p.chunkSize, len)
      modifies this`clock, chunkBuffer, hashsOfChunks
      ensures r == Ok ==> |first| == n && Chunked(first, n, p.chunkSize, len)
      ensures r == Ok ==> |Concat(first)| == len
      ensures r == Ok ==> Stored(crypto, hashsOfChunks[..], first)
      ensures r == Ok ==> Fetched(device, src, first)
      ensures r == Ok ==> crypto.Signs(authCertBuf[..],
              crypto.final(Concat(first) + authCertBuf[..AUTH_CERT_SIZE - SIG_SIZE]))
      ensures r in {Ok, CopyError, RsaInitError, RsaDecryptError, SignatureMismatch}
      ensures r == CopyError ==> CopyFails(device, src, len)
      ensures r == RsaInitError ==> !crypto.rsaInitOk(authCertBuf[..])
      ensures r == RsaDecryptError ==> crypto.rsaDecrypt(authCertBuf[..]).None?
      ensures r == SignatureMismatch ==>
                Fetched(device, src, first) && |Concat(first)| == len && Misfits(crypto, authCertBuf[..], Concat(first))
    {
      var sha;
      r, sha, first := HashBlock(src, len, n);
      if r != Ok {
        return;
      }
      var hash := crypto.final(sha + authCertBuf[..AUTH_CERT_SIZE - SIG_SIZE]);
      var cert := authCertBuf[..];
      if !crypto.rsaInitOk(cert) {
        return RsaInitError, first;
      }
      var signature := crypto.rsaDecrypt(cert);
      if signature.None? {
        return RsaDecryptError, first;
      }
      if !crypto.signMatches(signature.value, hash) {
        return SignatureMismatch, first;
      }
    }

    /** Hand a chunk to PCAP or to the decryptor. */
    method Release(size: nat) returns (ok: bool)
      requires Buffers() && size <= READ_BUFFER_SIZE && Words(size) && Flowing()
      modifies this`pcap, this`released, this`around, aes
      ensures released == old(released) + [chunkBuffer[..size]]
      ensures Delivered() && (ok ==> Flowing()) && (ok <==> !Refused())
    {
      var chunk := chunkBuffer[..size];
      var memory := Window(chunkBuffer[..], p.chunkBase, beyond);
      if !p.isEncrypted {
        pcap := pcap + chunk[..size / 4 * 4];
        ok := crypto.pcapDone(pcap);
      } else {
        var status := aes.DecryptPlChunks(Window(chunk, p.chunkBase, memory), p.chunkBase, size);
        ok := status == Success;
      }
      released := released + [chunk];
      around := around + [memory];
      assert released[..|released| - 1] == old(released) && around[..|around| - 1] == old(around);
    }

    /** Copy a chunk again and compare the running hash with the slot at `hash`. */
    method CheckChunk(src: nat, n: nat, sha: seq<Byte>, hash: nat) returns (r: Result, chunk: seq<Byte>)
      requires Buffers() && n <= READ_BUFFER_SIZE && hash + SHA3_LEN <= HASH_BUFFER_SIZE
      modifies this`clock, chunkBuffer
      ensures r in {Ok, CopyError, ChunkHashMismatch}
      ensures r == Ok ==> |chunk| == n && chunkBuffer[..n] == chunk && ReadAt(device, src, chunk)
      ensures r == Ok ==> HashAt(hashsOfChunks[..], hash) == crypto.running(sha + chunk)
      ensures r == CopyError ==> CopyOut(device, old(clock), src, n).None?
      ensures r == ChunkHashMismatch ==>
                && |chunk| == n && ReadAt(device, src, chunk)
                && HashAt(hashsOfChunks[..], hash) != crypto.running(sha + chunk)
    {
      chunk := [];
      var ok := CopyData(chunkBuffer, src, n);
      if !ok {
        return CopyError, chunk;
      }
      chunk := chunkBuffer[..n];
      r := if HashAt(hashsOfChunks[..], hash) == crypto.running(sha + chunk) then Ok else ChunkHashMismatch;
    }

    /** What pass two knows about block `b` after releasing the chunks `second`. */
    ghost predicate Passing(b: Block, second: seq<seq<Byte>>) {
      Rechecked(crypto, b.(second := second)) && Fetched(device, b.src, second)
    }

    /** The next chunk of pass two: read it again, check it, release it. */
    method PassTwoChunk(src: nat, size: nat, sha: seq<Byte>, hash: nat, ghost b: Block,
                        ghost base: seq<seq<Byte>>, ghost before: seq<seq<Byte>>)
      returns (r: Result, sha': seq<Byte>, ghost second: seq<seq<Byte>>)
      requires Buffers() && size <= READ_BUFFER_SIZE && Words(size) && hash + SHA3_LEN <= HASH_BUFFER_SIZE
      requires Flowing() && Passing(b, before) && released == base + before
      requires |before| < |b.first| && size == |b.first[|before|]| && sha == Concat(before) && src == b.src + |sha|
      requires HashAt(hashsOfChunks[..], hash) == crypto.running(Concat(b.first[..|before| + 1]))
      modifies this`clock, this`pcap, this`released, this`around, chunkBuffer, aes
      ensures r in {Ok, CopyError, ChunkHashMismatch, SinkError}
      ensures Passing(b, second) && released == base + second
      ensures r == Ok ==> |second| == |before| + 1 && sha' == Concat(second) && |sha'| == |sha| + size
      ensures Delivered() && (r == Ok ==> Flowing()) && (r == SinkError ==> Refused())
      ensures r == CopyError ==> CopyOut(device, old(clock), src, size).None?
      ensures r == ChunkHashMismatch ==>
                exists chunk :: |chunk| == size && ReadAt(device, src, chunk)
                                && crypto.running(Concat(before) + chunk) !=
                                   crypto.running(Concat(b.first[..|before| + 1]))
    {
      hide Rechecked;
      hide Fetched;
      hide Concat;
      hide FeedAll;
      sha', second := sha, before;
      var chunk;
      r, chunk := CheckChunk(src, size, sha, hash);
      if r == Ok {
        RecheckNext(crypto, device, b.(second := before), chunk);
        sha', second := sha + chunk, before + [chunk];
        AppendAssoc(base, before, [chunk]);
        var ok := Release(size);
        r := if ok then Ok else SinkError;
      }
    }

    /** Why pass two over a block stops at a chunk. */
    lemma StopsHere(r: Result, t: nat, b: Block, before: seq<seq<Byte>>, len: nat, at: nat, size: nat)
      requires Passing(b, before) && |before| < |b.first| && size == |b.first[|before|]|
      requires Fetched(device, b.src, b.first) && |Concat(b.first)| == len
      requires at == b.src + |Concat(before)| && at + size <= b.src + len
      requires r == CopyError ==> CopyOut(device, t, at, size).None?
      requires r == ChunkHashMismatch ==>
                 exists chunk :: |chunk| == size && ReadAt(device, at, chunk)
                                 && crypto.running(Concat(before) + chunk) !=
                                    crypto.running(Concat(b.first[..|before| + 1]))
      ensures r == CopyError ==> CopyFails(device, b.src, len)
      ensures r == ChunkHashMismatch ==> Disagree(crypto, device, b.src, len)
    {
      hide Concat;
      hide Passing;
      hide CopyFails;
      hide Disagree;
      hide Fetched;
      hide ReadAt;
      if r == ChunkHashMismatch {
        Mismatch(b, before, b.src, len);
      } else if r == CopyError {
        PartFails(t, b.src, len, at, size);
      }
    }

    lemma NothingPassed(b: Block)
      ensures Concat([]) == [] && Passing(b, [])
    {
    }

    lemma PartFails(t: nat, src: nat, len: nat, at: nat, n: nat)
      requires src <= at && at + n <= src + len && CopyOut(device, t, at, n).None?
      ensures CopyFails(device, src, len)
    {
    }

    /** A chunk that hashes differently the second time. */
    lemma Mismatch(b: Block, before: seq<seq<Byte>>, src: nat, len: nat)
      requires Passing(b, before) && |before| < |b.first| && b.src == src
      requires Fetched(device, src, b.first) && |Concat(b.first)| == len
      requires exists chunk :: |chunk| == |b.first[|before|]| && ReadAt(device, src + |Concat(before)|, chunk)
                               && crypto.running(Concat(before) + chunk) !=
                                  crypto.running(Concat(b.first[..|before| + 1]))
      ensures Disagree(crypto, device, src, len)
    {
      hide ReadAt;
      hide Fetched;
      hide HashesMeet;
      hide Concat;
      hide Disagree;
      var k := |before|;
      var chunk :| |chunk| == |b.first[k]| && ReadAt(device, src + |Concat(before)|, chunk)
                   && crypto.running(Concat(before) + chunk) != crypto.running(Concat(b.first[..k + 1]));
      FetchedNext(device, src, before, chunk);
      FetchedPrefix(device, src, b.first, k + 1);
      SameOffsets(before + [chunk], b.first[..k + 1]);
      ConcatPrefix(b.first, k + 1);
      TwoReadings(crypto, device, src, len, before + [chunk], b.first[..k + 1]);
    }

    /** Pass two over a block of `n` chunks. */
    method ReAuthenticate(src: nat, len: nat, n: nat, ghost b: Block) returns (r: Result, ghost second: seq<seq<Byte>>)
      requires Buffers() && n <= p.noOfHashs && Splits(n, p.chunkSize, len) && Words(len) && len < U32
      requires Flowing()
      requires b.src == src && b.second == [] && |b.first| == n
      requires Chunked(b.first, n, p.chunkSize, len)
      requires Stored(crypto, hashsOfChunks[..], b.first) && Fetched(device, src, b.first) && |Concat(b.first)| == len
      modifies this`clock, this`pcap, this`released, this`around, chunkBuffer, aes
      ensures r in {Ok, CopyError, ChunkHashMismatch, SinkError}
      ensures released == old(released) + second && Passing(b, second)
      ensures r == Ok ==> |second| == n
      ensures Delivered() && (r == Ok ==> Flowing()) && (r == SinkError ==> Refused())
      ensures r == CopyError ==> CopyFails(device, src, len)
      ensures r == ChunkHashMismatch ==> Disagree(crypto, device, src, len)
    {
      hide Concat;
      hide Passing;
      hide CopyFails;
      hide Disagree;
      hide Fetched;
      hide FeedAll;
      hide HashAt;
      hide Delivered;
      hide Refused;
      hide ReadAt;
      hide Stored;
      hide Sub32;
      NothingPassed(b);
      assert ChunkOff(p.chunkSize, 0) == 0;
      hide ChunkOff;
      var size := p.chunkSize;
      var sha: seq<Byte> := [];
      var hashDataLen := len;
      var hash := 0;
      second := [];
      r := Ok;
      for index := 0 to n
        invariant index < n ==> hash == index * SHA3_LEN && size == p.chunkSize
        invariant index < n ==>
                    |sha| == ChunkOff(p.chunkSize, index) && hashDataLen == len - ChunkOff(p.chunkSize, index)
        invariant |second| == index && sha == Concat(second)
        invariant released == old(released) + second
        invariant Passing(b, second) && Delivered() && Flowing() && r == Ok
      {
        ChunkStep(index, n, p.chunkSize, len);
        if index == n - 1 {
          size := hashDataLen;
        }
        var offset := src + ChunkOff(p.chunkSize, index);
        StoredAt(crypto, hashsOfChunks[..], b.first, index);
        ghost var before, t := second, clock;
        r, sha, second := PassTwoChunk(offset, size, sha, hash, b, old(released), second);
        if r != Ok {
          StopsHere(r, t, b, before, len, offset, size);
          return;
        }
        hashDataLen := Sub32(hashDataLen, p.chunkSize);
        if index + 1 <= n - 1 {
          hash := hash + SHA3_LEN;
        }
      }
    }

    /** What is known of an accepted block. */
    ghost predicate Accepted(b: Block) {
      && Signed(crypto, b) && Rechecked(crypto, b) && Shaped(b, p.chunkSize)
      && Fetched(device, b.src, b.first) && Fetched(device, b.src, b.second)
    }

    /** How many chunks a block of `len` bytes has. */
    method CountChunks(len: nat) returns (n: nat)
      requires Buffers()
      ensures n == ChunksOf(len, p.chunkSize)
      ensures Splits(n, p.chunkSize, len) && (n > p.noOfHashs <==> p.TooManyChunks(len))
    {
      n := 1;
      if len > p.chunkSize {
        n := len / p.chunkSize;
        if len % p.chunkSize > 0 {
          n := n + 1;
        }
      }
      ChunkCount(len, p.chunkSize);
      ChunksNeeded(n, p.chunkSize, len, p.noOfHashs);
    }

    lemma BlockAccepted(b: Block, second: seq<seq<Byte>>)
      requires |b.cert| == AUTH_CERT_SIZE && crypto.Trusts(b.cert) && Fetched(device, b.src, b.first)
      requires crypto.Signs(b.cert, crypto.final(Concat(b.first) + b.cert[..AUTH_CERT_SIZE - SIG_SIZE]))
      requires Passing(b, second) && Shaped(b, p.chunkSize)
      ensures Accepted(b.(second := second)) && |second| <= |b.first|
    {
    }

    /** One block: trust the certificate, pass one, pass two. */
    method BlockAuthenticate(src: nat, len: nat, ghost certAddr: nat) returns (r: Result)
      requires Buffers() && Words(len) && len < U32 && Flowing() && History()
      requires AllComplete(blocks) && CertAt(device, certAddr, authCertBuf[..])
      modifies this`clock, this`pcap, this`blocks, this`released, this`around, chunkBuffer, hashsOfChunks, aes
      ensures r !in {NotSecure, KeyMissing}
      ensures r == Ok || r == SinkError || Excuse(crypto, device, p, r, src, len, certAddr)
      ensures r == SinkError ==> Refused()
      ensures Delivered() && History() && (r == Ok ==> Flowing())
      ensures r == HashStoreTooSmall <==> p.TooManyChunks(len)
      ensures r == Ok || r == SinkError ==>
                && |blocks| == |old(blocks)| + 1 && blocks[..|old(blocks)|] == old(blocks)
                && var b := blocks[|old(blocks)|];
                && (r == Ok ==> AllComplete(blocks))
                && b.src == src && b.certAddr == certAddr && |Concat(b.first)| == len
    {
      hide Concat, Released, Complete;
      hide Excuse;
      hide Signed;
      hide Passing;
      hide Accepted;
      hide Stored;
      hide Chunked;
      hide FeedAll;
      hide CopyFails;
      hide Disagree;
      var cert := authCertBuf[..];
      var n := CountChunks(len);
      if n > p.noOfHashs {
        Excused(crypto, device, p, HashStoreTooSmall, src, len, certAddr, cert, []);
        return HashStoreTooSmall;
      }
      if crypto.efuseRsa && !crypto.ppkSpkOk(cert) {
        Excused(crypto, device, p, PpkSpkError, src, len, certAddr, cert, []);
        return PpkSpkError;
      }
      if !crypto.spkOk(cert) {
        Excused(crypto, device, p, SpkError, src, len, certAddr, cert, []);
        return SpkError;
      }
      r := BothPasses(src, len, n, certAddr);
    }

    /** Pass one and the signature, then pass two; the certificate is trusted. */
    method BothPasses(src: nat, len: nat, n: nat, ghost certAddr: nat) returns (r: Result)
      requires Buffers() && Words(len) && len < U32 && Flowing() && History()
      requires n <= p.noOfHashs && Splits(n, p.chunkSize, len) && n == ChunksOf(len, p.chunkSize)
      requires AllComplete(blocks) && CertAt(device, certAddr, authCertBuf[..]) && crypto.Trusts(authCertBuf[..])
      modifies this`clock, this`pcap, this`blocks, this`released, this`around, chunkBuffer, hashsOfChunks, aes
      ensures r !in {HashStoreTooSmall, NotSecure, KeyMissing}
      ensures r == Ok || r == SinkError || Excuse(crypto, device, p, r, src, len, certAddr)
      ensures r == SinkError ==> Refused()
      ensures Delivered() && History() && (r == Ok ==> Flowing())
      ensures r == Ok || r == SinkError ==>
                && |blocks| == |old(blocks)| + 1 && blocks[..|old(blocks)|] == old(blocks)
                && var b := blocks[|old(blocks)|];
                && (r == Ok ==> AllComplete(blocks))
                && b.src == src && b.certAddr == certAddr && |Concat(b.first)| == len
    {
      hide Concat, Released, Complete;
      hide Excuse;
      hide Signed;
      hide Passing;
      hide Accepted;
      hide Stored;
      hide Chunked;
      hide FeedAll;
      hide CopyFails;
      hide Disagree;
      hide Misfits;
      hide Refused;
      ghost var cert := authCertBuf[..];
      ghost var first;
      r, first := SignVer(src, len, n);
      if r != Ok {
        Excused(crypto, device, p, r, src, len, certAddr, cert, first);
        return;
      }
      ghost var b := Block(src, certAddr, cert, first, []);
      r := SecondPass(src, len, n, b);
      if r != Ok && r != SinkError {
        Excused(crypto, device, p, r, src, len, certAddr, cert, first);
      }
    }

    /** Pass two over a block whose signature is good. */
    method SecondPass(src: nat, len: nat, n: nat, ghost b: Block) returns (r: Result)
      requires Buffers() && Words(len) && len < U32 && Flowing() && History() && AllComplete(blocks)
      requires n <= p.noOfHashs && Splits(n, p.chunkSize, len) && n == ChunksOf(len, p.chunkSize)
      requires b.src == src && b.second == [] && |b.first| == n && Chunked(b.first, n, p.chunkSize, len)
      requires Stored(crypto, hashsOfChunks[..], b.first) && Fetched(device, src, b.first) && |Concat(b.first)| == len
      requires |b.cert| == AUTH_CERT_SIZE && crypto.Trusts(b.cert)
      requires crypto.Signs(b.cert, crypto.final(Concat(b.first) + b.cert[..AUTH_CERT_SIZE - SIG_SIZE]))
      modifies this`clock, this`pcap, this`blocks, this`released, this`around, chunkBuffer, aes
      ensures r in {Ok, CopyError, ChunkHashMismatch, SinkError}
      ensures r == CopyError ==> CopyFails(device, src, len)
      ensures r == ChunkHashMismatch ==> Disagree(crypto, device, src, len)
      ensures r == SinkError ==> Refused()
      ensures Delivered() && History() && (r == Ok ==> Flowing())
      ensures && |blocks| == |old(blocks)| + 1 && blocks[..|old(blocks)|] == old(blocks)
              && var b2 := blocks[|old(blocks)|];
                && (r == Ok ==> AllComplete(blocks))
                && b2.src == src && b2.certAddr == b.certAddr && b2.first == b.first
    {
      hide Concat, Released, Complete;
      hide Signed;
      hide Passing;
      hide Accepted;
      hide Stored;
      hide Chunked;
      hide FeedAll;
      hide CopyFails;
      hide Disagree;
      hide Fetched;
      ghost var second;
      r, second := ReAuthenticate(src, len, n, b);
      EnterBlock(b, second);
    }

    /** The block is entered in the history of the run. */
    ghost method EnterBlock(b: Block, second: seq<seq<Byte>>)
      requires |b.cert| == AUTH_CERT_SIZE && crypto.Trusts(b.cert) && Fetched(device, b.src, b.first)
      requires crypto.Signs(b.cert, crypto.final(Concat(b.first) + b.cert[..AUTH_CERT_SIZE - SIG_SIZE]))
      requires Passing(b, second) && Shaped(b, p.chunkSize)
      requires (forall i :: 0 <= i < |blocks| ==> Accepted(blocks[i])) && AllComplete(blocks)
      requires Released(blocks) + second == released
      modifies this`blocks
      ensures History() && blocks == old(blocks) + [b.(second := second)] && blocks[..|old(blocks)|] == old(blocks)
      ensures |second| == |b.first| ==> AllComplete(blocks)
    {
      hide Concat, Released, Complete;
      hide Signed;
      hide Passing;
      hide Accepted;
      hide Shaped;
      BlockAccepted(b, second);
      BlockEntered(blocks, b.(second := second));
      blocks := blocks + [b.(second := second)];
    }

    /** The blocks so far account for everything released, and all of them are complete but
        possibly the last one. */
    ghost predicate History()
      reads this
    {
      && (forall i :: 0 <= i < |blocks| ==> Accepted(blocks[i]))
      && (blocks == [] || AllComplete(blocks[..|blocks| - 1]))
      && Released(blocks) == released
    }

    /** One turn of the block loop: copy the certificate, then authenticate the block. */
    method NextBlock(src: nat, len: nat, certAddr: nat) returns (r: Result)
      requires Buffers() && Words(len) && len < U32 && Flowing() && History()
      requires AllComplete(blocks)
      modifies this`clock, this`pcap, this`blocks, this`released, this`around
      modifies chunkBuffer, hashsOfChunks, authCertBuf, aes
      ensures r !in {NotSecure, KeyMissing}
      ensures r == Ok || r == SinkError || Excuse(crypto, device, p, r, src, len, certAddr)
      ensures r == SinkError ==> Refused()
      ensures Delivered() && History() && (r == Ok ==> Flowing())
      ensures r == HashStoreTooSmall ==> p.TooManyChunks(len)
      ensures r == Ok || r == SinkError ==>
                && |blocks| == |old(blocks)| + 1 && blocks[..|old(blocks)|] == old(blocks)
                && var b := blocks[|old(blocks)|];
                && (r == Ok ==> AllComplete(blocks))
                && b.src == src && b.certAddr == certAddr && |Concat(b.first)| == len
    {
      hide Excuse;
      hide FeedAll;
      hide Concat;
      hide Complete;
      hide Refused;
      ghost var t := clock;
      var ok := CopyData(authCertBuf, certAddr, AUTH_CERT_SIZE);
      if !ok {
        CertFails(t, src, len, certAddr);
        return CopyError;
      }
      assert authCertBuf[..] == authCertBuf[..AUTH_CERT_SIZE];
      CertRead(t, certAddr, authCertBuf[..]);
      r := BlockAuthenticate(src, len, certAddr);
    }

    lemma CertFails(t: nat, src: nat, len: nat, certAddr: nat)
      requires CopyOut(device, t, certAddr, AUTH_CERT_SIZE).None?
      ensures Excuse(crypto, device, p, CopyError, src, len, certAddr)
    {
    }

    lemma CertRead(t: nat, certAddr: nat, cert: seq<Byte>)
      requires |cert| == AUTH_CERT_SIZE && CopyOut(device, t, certAddr, AUTH_CERT_SIZE) == Some(cert)
      ensures CertAt(device, certAddr, cert)
    {
    }

    /** XFsbl_SecPlPartition; `n` is the number of blocks when the partition is laid out as it
        should be, `image` what it is read from. Each result has its own reason, and a partition
        that gives no reason is processed to its end. */
    method SecPlPartition(ghost n: nat, ghost image: seq<Byte>) returns (r: Result)
      requires Buffers() && Flowing() && blocks == [] && released == []
      modifies this, chunkBuffer, hashsOfChunks, authCertBuf, aes
      ensures Delivered() && History()
      ensures r == NotSecure <==> !p.isAuthenticated || (p.isEncrypted && !p.secureAes)
      ensures r == KeyMissing <==> p.isAuthenticated && p.isEncrypted && p.secureAes && p.kupKeyMissing
      ensures r == SinkError ==> Refused()
      ensures r !in {Ok, NotSecure, KeyMissing, SinkError} ==>
                exists src, len, certAddr :: Excuse(crypto, device, p, r, src, len, certAddr)
      ensures r !in {Ok, NotSecure, KeyMissing, SinkError} && LaidOut(p, n) ==> ExcusedAt(r, n)
      ensures p.Admitted() && Wholesome(crypto, device, p, aes.engine, image, n) ==> r == Ok
      ensures r == Ok ==> AllComplete(blocks) && Flowing()
      ensures r == Ok && LaidOut(p, n) ==> |blocks| == n && Tiles(blocks, p.startAddress, p.blockSize, p.acOffset)
      ensures r == HashStoreTooSmall && LaidOut(p, n) ==> p.TooManyChunks(p.blockSize)
    {
      hide Wholesome;
      hide Excuse;
      hide Refused;
      hide Delivered;
      if !p.isAuthenticated {
        return NotSecure;
      }
      if p.isEncrypted {
        if !p.secureAes {
          return NotSecure;
        }
        if p.kupKeyMissing {
          return KeyMissing;
        }
      }
      assert BlockNumber(0) == 1;
      r := AuthenticateBlocks(n, image);
    }

    method AuthenticateBlocks(ghost n: nat, ghost image: seq<Byte>) returns (r: Result)
      requires Buffers() && Flowing() && blocks == [] && released == []
      modifies this, chunkBuffer, hashsOfChunks, authCertBuf, aes
      ensures Delivered() && History()
      ensures r !in {NotSecure, KeyMissing} && (r == SinkError ==> Refused())
      ensures r !in {Ok, SinkError} ==>
                exists src, len, certAddr :: Excuse(crypto, device, p, r, src, len, certAddr)
      ensures r !in {Ok, SinkError} && LaidOut(p, n) ==> ExcusedAt(r, n)
      ensures Wholesome(crypto, device, p, aes.engine, image, n) ==> r == Ok
      ensures r == Ok ==> AllComplete(blocks) && Flowing()
      ensures r == Ok && LaidOut(p, n) ==> |blocks| == n && Tiles(blocks, p.startAddress, p.blockSize, p.acOffset)
      ensures r == HashStoreTooSmall && LaidOut(p, n) ==> p.TooManyChunks(p.blockSize)
    {
      hide Wholesome;
      hide Excuse;
      hide ExcusedAt;
      hide Refused;
      hide FeedAll;
      var src: nat, ac: nat, len: nat := p.startAddress, p.acOffset, p.blockSize;
      var index: nat := 1;
      var isLast := false;
      r := Ok;
      while src < p.acOffset && !isLast
        invariant Flowing() && History() && AllComplete(blocks) && r == Ok
        invariant OnTrack(p, n, blocks, src, ac, len, index, isLast)
        decreases !isLast, p.acOffset - src
      {
        if src + p.blockSize > p.acOffset {
          len := LastLen(p.totalLen, index, p.blockSize);
          isLast := true;
        }
        AimedLen(p, n, blocks, src, ac, len, index, isLast);
        ghost var before := blocks;
        r := NextBlock(src, len, ac);
        if r != Ok {
          NeverStops(image, n, r, before, src, ac, len, index, isLast);
          StopsAt(n, r, before, src, ac, len, index, isLast);
          return;
        }
        StillOnTrack(p, n, before, blocks, src, ac, len, index, isLast);
        if !isLast {
          ac := ac + AUTH_CERT_SIZE;
          src := src + p.blockSize;
        }
        index := Inc8(index);
      }
      TrackEnds(p, n, blocks, src, ac, len, index, isLast);
    }

    /** One of the n blocks, or its certificate, is the reason for a failure. */
    ghost predicate ExcusedAt(r: Result, n: nat) {
      exists i: nat ::
        i < n && Excuse(crypto, device, p, r, BlockStart(p, i), BlockLen(p, i), p.acOffset + i * AUTH_CERT_SIZE)
    }

    lemma StopsAt(n: nat, r: Result, before: seq<Block>, src: nat, ac: nat, len: nat, index: nat, isLast: bool)
      requires p.Valid() && Aimed(p, n, before, src, ac, len, index, isLast)
      ensures LaidOut(p, n) && Excuse(crypto, device, p, r, src, len, ac) ==> ExcusedAt(r, n)
    {
      hide Excuse;
      if LaidOut(p, n) {
        AimedBlock(p, n, before, src, ac, len, index, isLast);
      }
    }

    /** A wholesome partition does not stop at a block. */
    lemma NeverStops(image: seq<Byte>, n: nat, r: Result, before: seq<Block>, src: nat, ac: nat, len: nat, index: nat,
                     isLast: bool)
      requires Buffers() && Delivered() && History()
      requires Aimed(p, n, before, src, ac, len, index, isLast) && r != Ok
      requires r != SinkError ==> Excuse(crypto, device, p, r, src, len, ac)
      requires r == SinkError ==>
                 && Refused() && |blocks| == |before| + 1 && blocks[..|before|] == before
                 && var b := blocks[|before|];
                 && b.src == src && b.certAddr == ac && |Concat(b.first)| == len
      ensures !Wholesome(crypto, device, p, aes.engine, image, n)
    {
      hide Excuse;
      hide Refused;
      hide Delivered;
      hide History;
      hide SinkWilling;
      hide ReadsWell;
      if Wholesome(crypto, device, p, aes.engine, image, n) {
        AimedBlock(p, n, before, src, ac, len, index, isLast);
        if r == SinkError {
          StillOnTrack(p, n, before, blocks, src, ac, len, index, isLast);
          NoRefusal(image, n);
        } else {
          NoExcuse(crypto, device, p, aes.engine, image, n, |before|, r);
        }
      }
    }

    /** What was released is the beginning of the image's cut. */
    lemma ReleasedIsCut(image: seq<Byte>, n: nat)
      requires p.Valid() && History() && ReadsWell(device, image) && p.acOffset <= |image|
      requires |blocks| <= n && Tiles(blocks, p.startAddress, p.blockSize, p.acOffset)
      ensures released <= Cut(image, p, n)
    {
      hide Accepted;
      hide ReadsWell;
      hide Tiles;
      hide AllComplete;
      BlocksAreCut(image, blocks);
      CutGrows(image, p, |blocks|, n);
    }

    /** Accepted blocks side by side, all complete but possibly the last. */
    ghost predicate Laid(done: seq<Block>) {
      && (forall i :: 0 <= i < |done| ==> Accepted(done[i]))
      && Tiles(done, p.startAddress, p.blockSize, p.acOffset)
      && (done == [] || AllComplete(done[..|done| - 1]))
    }

    lemma {:induction false} BlocksAreCut(image: seq<Byte>, done: seq<Block>)
      requires p.Valid() && ReadsWell(device, image) && p.acOffset <= |image| && Laid(done)
      ensures Released(done) <= Cut(image, p, |done|)
      ensures AllComplete(done) ==> Released(done) == Cut(image, p, |done|)
      decreases |done|
    {
      hide ReadsWell;
      hide TileAt;
      hide Accepted;
      hide Cut;
      hide Released;
      hide Laid;
      hide AllComplete;
      if done != [] {
        var k := |done| - 1;
        LaidBefore(done);
        BlocksAreCut(image, done[..k]);
        LastIsCut(image, done[k], k);
        CutStep(image, p, k);
        ReleasedStep(done);
      } else {
        NothingCut(image, p);
      }
    }

    lemma LaidBefore(done: seq<Block>)
      requires Laid(done) && done != []
      ensures var k := |done| - 1;
              && Laid(done[..k]) && AllComplete(done[..k]) && Accepted(done[k])
              && TileAt(done[k], k, p.startAddress, p.blockSize, p.acOffset)
              && (AllComplete(done) ==> Complete(done[k]))
    {
      hide Accepted;
      hide TileAt;
      hide Complete;
    }

    lemma LastIsCut(image: seq<Byte>, b: Block, i: nat)
      requires p.Valid() && ReadsWell(device, image) && p.acOffset <= |image| && Accepted(b)
      requires TileAt(b, i, p.startAddress, p.blockSize, p.acOffset)
      ensures var cut := BlockCut(image, BlockStart(p, i), BlockLen(p, i), p.chunkSize);
              b.second <= cut && (Complete(b) ==> b.second == cut)
    {
      hide ReadsWell;
      hide TileAt;
      hide Signed;
      hide Rechecked;
      hide Fetched;
      hide Shaped;
      TileIsBlock(b, i);
      BlockIsCut(crypto, device, image, b, p.chunkSize);
    }

    lemma TileIsBlock(b: Block, i: nat)
      requires TileAt(b, i, p.startAddress, p.blockSize, p.acOffset)
      ensures b.src == BlockStart(p, i) && |Concat(b.first)| == BlockLen(p, i)
      ensures b.src + |Concat(b.first)| <= p.acOffset
    {
      hide Concat;
    }

    /** A willing sink has refused nothing. */
    lemma NoRefusal(image: seq<Byte>, n: nat)
      requires Buffers() && Delivered() && History() && Wholesome(crypto, device, p, aes.engine, image, n)
      requires |blocks| <= n && Tiles(blocks, p.startAddress, p.blockSize, p.acOffset)
      ensures !Refused()
    {
      hide History;
      hide Tiles;
      hide Parse;
      hide FeedAll;
      hide CleanAt;
      hide Approves;
      ReleasedIsCut(image, n);
      var cut := Cut(image, p, n);
      if p.isEncrypted {
        BeginningIsFine(aes.engine, released, cut);
        ApprovedSucceeds(aes.engine, released, p.chunkBase, around);
      } else {
        ConcatPrefix(cut, |released|);
        assert cut[..|released|] == released;
      }
    }

    /** The first theorem: whatever the memory returned and wherever the run stopped, PCAP has
        received a prefix of the signed bytes, and all of them after a success. */
    lemma PcapGetsSignedBytes()
      requires Delivered() && History() && !p.isEncrypted
      requires forall i :: 0 <= i < |blocks| ==> NoCollision(crypto, blocks[i])
      ensures pcap <= SignedBytes(blocks)
      ensures AllComplete(blocks) ==> pcap == SignedBytes(blocks)
    {
      OnlySignedBytes(crypto, blocks);
    }

    /** The same for an encrypted partition, as long as every chunk is cut cleanly: wherever the
        run stopped, the AES engine was fed a prefix of what the byte parser makes of the signed
        bytes, and all of it after a success. */
    lemma AesGetsSignedStream()
      requires Buffers() && Delivered() && History() && p.isEncrypted
      requires forall i :: 0 <= i < |blocks| ==> NoCollision(crypto, blocks[i])
      requires forall i :: 0 <= i < |released| ==> CleanAt(aes.engine, released, i)
      ensures aes.fed <= Parse(aes.engine, START, SignedBytes(blocks)).fed
      ensures Flowing() && AllComplete(blocks) ==> aes.fed == Parse(aes.engine, START, SignedBytes(blocks)).fed
    {
      OnlySignedBytes(crypto, blocks);
      StreamRefines(aes.engine, released, p.chunkBase, around);
      ParsePrefix(aes.engine, Concat(released), SignedBytes(blocks));
    }

    /** With memory that reads the same every time, no assumption on the hash is needed: the
        released bytes are the image's own, from the first to the last block. */
    lemma ReleasesTheImage(image: seq<Byte>)
      requires Delivered() && History() && AllComplete(blocks) && Steady(device, image)
      requires p.Valid() && p.startAddress < p.acOffset <= |image| && blocks != []
      requires Tiles(blocks, p.startAddress, p.blockSize, p.acOffset)
      requires Covers(|blocks|, p.blockSize, p.acOffset - p.startAddress)
      ensures Concat(released) == image[p.startAddress..p.acOffset]
    {
      hide TileAt;
      hide Covers;
      hide Concat;
      hide SliceOf;
      hide Accepted;
      AllSlices(image);
      LastEnd(p, blocks);
      TilesRead(image, blocks, p.startAddress, p.blockSize, p.acOffset);
    }

    lemma AllSlices(image: seq<Byte>)
      requires History() && AllComplete(blocks) && Steady(device, image) && p.acOffset <= |image|
      requires Tiles(blocks, p.startAddress, p.blockSize, p.acOffset)
      ensures forall i :: 0 <= i < |blocks| ==> SliceOf(image, blocks[i])
    {
      hide SliceOf;
      hide TileAt;
      hide Accepted;
      forall i | 0 <= i < |blocks|
        ensures SliceOf(image, blocks[i])
      {
        BlockSlice(image, blocks[i], i);
      }
    }

    lemma BlockSlice(image: seq<Byte>, b: Block, i: nat)
      requires Accepted(b) && Complete(b) && Steady(device, image) && p.acOffset <= |image|
      requires TileAt(b, i, p.startAddress, p.blockSize, p.acOffset)
      ensures SliceOf(image, b)
    {
      SteadySlice(device, image, b);
    }
  }

  lemma ParsePrefix(e: Engine, a: seq<Byte>, b: seq<Byte>)
    requires a <= b
    ensures Parse(e, START, a).fed <= Parse(e, START, b).fed
  {
    assert b == a + b[|a|..];
    ParseConcat(e, START, a, b[|a|..]);
    ParseGrows(e, Parse(e, START, a), b[|a|..]);
  }

  lemma LastEnd(p: Params, blocks: seq<Block>)
    requires p.startAddress < p.acOffset && blocks != []
    requires Tiles(blocks, p.startAddress, p.blockSize, p.acOffset)
    requires Covers(|blocks|, p.blockSize, p.acOffset - p.startAddress)
    ensures var b := blocks[|blocks| - 1]; b.src + |Concat(b.first)| == p.acOffset
  {
    var last := |blocks| - 1;
    assert TileAt(blocks[last], last, p.startAddress, p.blockSize, p.acOffset);
    LastTile(blocks[last], |blocks|, p.startAddress, p.blockSize, p.acOffset);
  }

  /** The image holds these bytes at `from`. */
  ghost predicate Shows(image: seq<Byte>, from: nat, bytes: seq<Byte>) {
    from + |bytes| <= |image| && bytes == image[from..from + |bytes|]
  }

  lemma ShowsMore(image: seq<Byte>, from: nat, a: seq<Byte>, b: seq<Byte>)
    requires Shows(image, from, a) && Shows(image, from + |a|, b)
    ensures Shows(image, from, a + b)
  {
    assert image[from..from + |a|] + image[from + |a|..from + |a| + |b|] == image[from..from + |a| + |b|];
  }

  /** The block released what the image holds there. */
  ghost predicate SliceOf(image: seq<Byte>, b: Block) {
    |Concat(b.second)| == |Concat(b.first)| && Shows(image, b.src, Concat(b.second))
  }

  lemma SteadySlice(d: Device, image: seq<Byte>, b: Block)
    requires Steady(d, image) && Fetched(d, b.src, b.second) && b.src <= |image|
    requires |b.second| == |b.first| && forall i :: 0 <= i < |b.second| ==> |b.second[i]| == |b.first[i]|
    ensures SliceOf(image, b)
  {
    SameOffsets(b.first, b.second);
    SteadyFetch(d, image, b.src, b.second);
  }

  /** The blocks have released the image from `start` to the end of the last one. */
  lemma {:induction false} TilesRead(image: seq<Byte>, blocks: seq<Block>, start: nat, blockSize: nat, acOffset: nat)
    requires blocks != [] && Tiles(blocks, start, blockSize, acOffset)
    requires forall i :: 0 <= i < |blocks| ==> SliceOf(image, blocks[i])
    ensures var b, bytes := blocks[|blocks| - 1], Concat(Released(blocks));
            b.src + |Concat(b.first)| == start + |bytes| && Shows(image, start, bytes)
    decreases |blocks|
  {
    hide Concat;
    hide Shows;
    hide TileAt;
    var n := |blocks| - 1;
    var b, front := blocks[n], blocks[..n];
    assert TileAt(b, n, start, blockSize, acOffset) && SliceOf(image, b);
    ConcatAppend(Released(front), b.second);
    if n > 0 {
      TilesRead(image, front, start, blockSize, acOffset);
      assert TileAt(blocks[n - 1], n - 1, start, blockSize, acOffset);
      NextTile(blocks[n - 1], b, n, start, blockSize, acOffset);
      ShowsMore(image, start, Concat(Released(front)), Concat(b.second));
    } else {
      FirstTile(b, start, blockSize, acOffset);
    }
  }

  lemma FirstTile(b: Block, start: nat, blockSize: nat, acOffset: nat)
    requires TileAt(b, 0, start, blockSize, acOffset)
    ensures b.src == start && forall s: seq<Byte> :: Concat([]) + s == s
  {
  }

  lemma NextTile(x: Block, y: Block, i: nat, start: nat, blockSize: nat, acOffset: nat)
    requires i > 0 && TileAt(x, i - 1, start, blockSize, acOffset) && TileAt(y, i, start, blockSize, acOffset)
    ensures y.src == x.src + |Concat(x.first)|
  {
    assert i * blockSize == (i - 1) * blockSize + blockSize;
  }

  lemma LastTile(x: Block, n: nat, start: nat, blockSize: nat, acOffset: nat)
    requires n > 0 && start < acOffset && TileAt(x, n - 1, start, blockSize, acOffset)
             && Covers(n, blockSize, acOffset - start)
    ensures x.src + |Concat(x.first)| == acOffset
  {
    assert n * blockSize == (n - 1) * blockSize + blockSize;
  }

  /** Chunks read from steady memory are a slice of it. */
  lemma {:induction false} SteadyFetch(d: Device, image: seq<Byte>, src: nat, chunks: seq<seq<Byte>>)
    requires Steady(d, image) && Fetched(d, src, chunks) && src <= |image|
    ensures Shows(image, src, Concat(chunks))
    decreases |chunks|
  {
    if chunks != [] {
      hide Steady;
      hide ReadAt;
      hide Shows;
      var front, last := chunks[..|chunks| - 1], chunks[|chunks| - 1];
      SteadyFetch(d, image, src, front);
      SteadyRead(d, image, src + |Concat(front)|, last);
      ShowsMore(image, src, Concat(front), last);
    }
  }

  lemma SteadyRead(d: Device, image: seq<Byte>, src: nat, chunk: seq<Byte>)
    requires Steady(d, image) && ReadAt(d, src, chunk)
    ensures Shows(image, src, chunk)
  {
    var t: nat :| CopyOut(d, t, src, |chunk|) == Some(chunk);
    assert CopyOut(d, t, src, |chunk|).Some?;
  }

  /** With the buffers of the boot loader, of Bootgen's blocks those of up to 8 MB have room for
      all of their hashes. */
  lemma EightMegabytesFit(p: Params)
    requires BootgenBlock(p.blockSize) && p.chunkSize == READ_BUFFER_SIZE && p.noOfHashs == HASH_BUFFER_SIZE / SHA3_LEN
    ensures p.noOfHashs * SHA3_LEN <= HASH_BUFFER_SIZE
    ensures p.TooManyChunks(p.blockSize) <==> p.blockSize > 0x800000
  {
    assert ChunkOff(p.chunkSize, p.noOfHashs) == 57344 * 149;
  }

  lemma ChunksNeeded(n: nat, chunkSize: nat, len: nat, slots: nat)
    requires chunkSize > 0 && Splits(n, chunkSize, len) && (n > 1 ==> ChunkOff(chunkSize, n - 1) < len)
    ensures n > slots <==> slots == 0 || len > ChunkOff(chunkSize, slots)
  {
    MulMono(slots, n - 1, chunkSize);
    MulMono(n, slots, chunkSize);
  }

  /** The variables of the block loop between two turns. */
  ghost predicate OnTrack(p: Params, n: nat, blocks: seq<Block>, src: nat, ac: nat, len: nat, index: nat,
                          isLast: bool) {
    && index == BlockNumber(|blocks|)
    && (!isLast ==>
          && src == p.startAddress + |blocks| * p.blockSize
          && ac == p.acOffset + |blocks| * AUTH_CERT_SIZE
          && len == p.blockSize)
    && (LaidOut(p, n) ==> Tiles(blocks, p.startAddress, p.blockSize, p.acOffset) && (isLast ==> |blocks| == n))
  }

  /** ... and once the length of the coming block is known. */
  ghost predicate Aimed(p: Params, n: nat, blocks: seq<Block>, src: nat, ac: nat, len: nat, index: nat, isLast: bool) {
    && index == BlockNumber(|blocks|)
    && src == p.startAddress + |blocks| * p.blockSize < p.acOffset
    && ac == p.acOffset + |blocks| * AUTH_CERT_SIZE
    && isLast == (src + p.blockSize > p.acOffset)
    && len == (if isLast then LastLen(p.totalLen, index, p.blockSize) else p.blockSize)
    && (LaidOut(p, n) ==> Tiles(blocks, p.startAddress, p.blockSize, p.acOffset))
  }

  lemma AimedLen(p: Params, n: nat, blocks: seq<Block>, src: nat, ac: nat, len: nat, index: nat, isLast: bool)
    requires p.Valid() && Aimed(p, n, blocks, src, ac, len, index, isLast)
    ensures Words(len) && len < U32
    ensures isLast && LaidOut(p, n) ==> n == |blocks| + 1 && len == p.acOffset - src
  {
    LastLenWords(p.totalLen, index, p.blockSize);
    if isLast && LaidOut(p, n) {
      LastBlock(p, n, |blocks|);
    }
  }

  /** The coming block is block number |blocks| of the layout. */
  lemma AimedBlock(p: Params, n: nat, blocks: seq<Block>, src: nat, ac: nat, len: nat, index: nat, isLast: bool)
    requires p.Valid() && LaidOut(p, n) && Aimed(p, n, blocks, src, ac, len, index, isLast)
    ensures |blocks| < n && src == BlockStart(p, |blocks|) && len == BlockLen(p, |blocks|)
    ensures ac == p.acOffset + |blocks| * AUTH_CERT_SIZE
  {
    AimedLen(p, n, blocks, src, ac, len, index, isLast);
    MulMono(n, |blocks|, p.blockSize);
  }

  lemma StillOnTrack(p: Params, n: nat, before: seq<Block>, after: seq<Block>, src: nat, ac: nat, len: nat, index: nat,
                     isLast: bool)
    requires p.Valid() && Aimed(p, n, before, src, ac, len, index, isLast)
    requires |after| == |before| + 1 && after[..|before|] == before
    requires var b := after[|before|]; b.src == src && b.certAddr == ac && |Concat(b.first)| == len
    ensures if isLast then OnTrack(p, n, after, src, ac, len, Inc8(index), isLast)
            else OnTrack(p, n, after, src + p.blockSize, ac + AUTH_CERT_SIZE, len, Inc8(index), isLast)
  {
    NextTurn(|before|, p.blockSize);
    AimedLen(p, n, before, src, ac, len, index, isLast);
    if LaidOut(p, n) {
      TilesGrow(p, before, after);
    }
  }

  lemma TrackEnds(p: Params, n: nat, blocks: seq<Block>, src: nat, ac: nat, len: nat, index: nat, isLast: bool)
    requires OnTrack(p, n, blocks, src, ac, len, index, isLast)
    requires isLast || src >= p.acOffset
    ensures LaidOut(p, n) ==> |blocks| == n && Tiles(blocks, p.startAddress, p.blockSize, p.acOffset)
  {
    if LaidOut(p, n) && !isLast {
      assert blocks != [] && TileAt(blocks[|blocks| - 1], |blocks| - 1, p.startAddress, p.blockSize, p.acOffset);
      CoversUnique(|blocks|, n, p.blockSize, p.acOffset - p.startAddress);
    }
  }

  lemma TilesGrow(p: Params, before: seq<Block>, after: seq<Block>)
    requires |after| == |before| + 1 && after[..|before|] == before
    requires Tiles(before, p.startAddress, p.blockSize, p.acOffset)
    requires TileAt(after[|before|], |before|, p.startAddress, p.blockSize, p.acOffset)
    ensures Tiles(after, p.startAddress, p.blockSize, p.acOffset)
  {
    forall i | 0 <= i < |after|
      ensures TileAt(after[i], i, p.startAddress, p.blockSize, p.acOffset)
    {
      if i < |before| {
        assert after[i] == before[i];
      }
    }
  }

  lemma WordsWrap(y: int)
    ensures Words((4 * y) % U32)
  {
    var q := (4 * y) / U32;
    assert (4 * y) % U32 == 4 * (y - (U32 / 4) * q);
  }

  lemma LastLenWords(totalLen: nat, index: nat, blockSize: nat)
    requires Words(totalLen) && Words(blockSize)
    ensures Words(LastLen(totalLen, index, blockSize))
  {
    var t, k := totalLen / 4, blockSize / 4;
    var c := AUTH_CERT_SIZE / 4;
    assert blockSize == 4 * k && totalLen == 4 * t && AUTH_CERT_SIZE == 4 * c;
    calc {
      totalLen - index * AUTH_CERT_SIZE - (index - 1) * blockSize;
      4 * t - index * (4 * c) - (index - 1) * (4 * k);
      4 * (t - index * c - (index - 1) * k);
    }
    WordsWrap(t - index * c - (index - 1) * k);
  }

  /** A byte counter. */
  function Inc8(i: nat): nat {
    (i + 1) % 0x100
  }

  /** The block number in its byte. */
  function BlockNumber(done: nat): nat {
    Inc8(done)
  }

  lemma NextTurn(done: nat, blockSize: nat)
    ensures BlockNumber(done + 1) == Inc8(BlockNumber(done))
    ensures (done + 1) * blockSize == done * blockSize + blockSize
  {
  }

  /** The last block of a partition laid out as it should be is reached after n - 1 full ones,
      and its computed length is what is left. */
  lemma LastBlock(p: Params, n: nat, done: nat)
    requires p.Valid() && LaidOut(p, n)
    requires p.startAddress + done * p.blockSize < p.acOffset < p.startAddress + done * p.blockSize + p.blockSize
    ensures n == done + 1
            && LastLen(p.totalLen, BlockNumber(done), p.blockSize) == p.acOffset - (p.startAddress + done * p.blockSize)
  {
    hide Params.Valid;
    CoversUnique(done + 1, n, p.blockSize, p.acOffset - p.startAddress);
    BlocksLeft(p.acOffset - p.startAddress, done, p.blockSize);
  }

  lemma BlocksLeft(d: nat, done: nat, blockSize: nat)
    requires done + 1 < 0x100 && done * blockSize < d < U32
    ensures LastLen(d + (done + 1) * AUTH_CERT_SIZE, BlockNumber(done), blockSize) == d - done * blockSize
  {
  }

  /** `n` blocks and a certificate for each, as Bootgen writes them; the block number fits its
      byte when it is needed. */
  ghost predicate LaidOut(p: Params, n: nat) {
    && p.startAddress < p.acOffset < U32
    && var d := p.acOffset - p.startAddress;
    && Covers(n, p.blockSize, d)
    && p.totalLen == d + n * AUTH_CERT_SIZE
    && (d < n * p.blockSize ==> n < 0x100)
  }

  lemma BlockEntered(before: seq<Block>, b: Block)
    ensures var after := before + [b];
            && after[..|before|] == before && Released(after) == Released(before) + b.second
            && (AllComplete(before) && |b.second| == |b.first| ==> AllComplete(after))
  {
    var after := before + [b];
    assert after[..|before|] == before;
  }

  /** The code's chunk count splits the block. */
  lemma ChunkCount(len: nat, chunkSize: nat)
    requires chunkSize > 0
    ensures var n := ChunksOf(len, chunkSize);
            Splits(n, chunkSize, len) && (n > 1 ==> ChunkOff(chunkSize, n - 1) < len)
  {
    var q := len / chunkSize;
    assert len == chunkSize * q + len % chunkSize;
    assert chunkSize * (q + 1) == chunkSize * q + chunkSize;
    assert chunkSize * (q - 1) == chunkSize * q - chunkSize;
  }

  lemma AppendAssoc<T>(a: seq<T>, b: seq<T>, c: seq<T>)
    ensures (a + b) + c == a + (b + c)
  {
  }

  lemma WholeWords(chunkSize: nat, n: nat, len: nat)
    requires chunkSize % 4 == 0 && len % 4 == 0
    ensures (len - chunkSize * n) % 4 == 0
  {
    var q := chunkSize / 4;
    assert chunkSize * n == 4 * (q * n);
  }

  /** Subtraction in 32 bits. */
  function Sub32(a: nat, b: nat): (r: nat)
    ensures b <= a < U32 ==> r == a - b
  {
    (a - b) % U32
  }

  lemma RecheckNext(c: Crypto, d: Device, b: Block, chunk: seq<Byte>)
    requires Rechecked(c, b) && Fetched(d, b.src, b.second) && |b.second| < |b.first|
    requires |chunk| == |b.first[|b.second|]| && |chunk| % 4 == 0 && ReadAt(d, b.src + |Concat(b.second)|, chunk)
    requires c.running(Concat(b.second) + chunk) == c.running(Concat(b.first[..|b.second| + 1]))
    ensures Rechecked(c, b.(second := b.second + [chunk])) && Fetched(d, b.src, b.second + [chunk])
    ensures Concat(b.second + [chunk]) == Concat(b.second) + chunk
  {
    hide Fetched;
    hide Concat;
    hide HashesMeet;
    hide ReadAt;
    HashesMeetNext(c, b, chunk);
    FetchedNext(d, b.src, b.second, chunk);
  }

  lemma {:induction false} FetchedPrefix(d: Device, src: nat, chunks: seq<seq<Byte>>, n: nat)
    requires Fetched(d, src, chunks) && n <= |chunks|
    ensures Fetched(d, src, chunks[..n])
    decreases |chunks|
  {
    if n < |chunks| {
      var front := chunks[..|chunks| - 1];
      FetchedPrefix(d, src, front, n);
      assert front[..n] == chunks[..n];
    } else {
      assert chunks[..n] == chunks;
    }
  }

  lemma FetchedNext(d: Device, src: nat, chunks: seq<seq<Byte>>, chunk: seq<Byte>)
    requires Fetched(d, src, chunks) && ReadAt(d, src + |Concat(chunks)|, chunk)
    ensures Fetched(d, src, chunks + [chunk]) && Concat(chunks + [chunk]) == Concat(chunks) + chunk
  {
    hide ReadAt;
    assert (chunks + [chunk])[..|chunks|] == chunks;
  }

  lemma HashesMeetNext(c: Crypto, b: Block, chunk: seq<Byte>)
    requires Rechecked(c, b) && |b.second| < |b.first|
    requires c.running(Concat(b.second) + chunk) == c.running(Concat(b.first[..|b.second| + 1]))
    ensures var after := b.(second := b.second + [chunk]);
            forall i :: 0 < i <= |after.second| ==> HashesMeet(c, after, i)
  {
    var after := b.(second := b.second + [chunk]);
    assert after.second[..|b.second|] == b.second;
    assert Concat(after.second) == Concat(b.second) + chunk;
    hide Concat;
    forall i | 0 < i <= |after.second|
      ensures HashesMeet(c, after, i)
    {
      if i <= |b.second| {
        assert HashesMeet(c, b, i) && after.second[..i] == b.second[..i];
      } else {
        assert after.second[..i] == after.second;
      }
    }
  }

  // ---------------------------------------------------------------- when nothing is refused

  /** Every copy from the image succeeds and returns what is there. */
  ghost predicate ReadsWell(d: Device, image: seq<Byte>) {
    forall t: nat, src: nat, n: nat :: src + n <= |image| ==> CopyOut(d, t, src, n) == Some(image[src..src + n])
  }

  function Slice(image: seq<Byte>, from: nat, n: nat): seq<Byte> {
    if from + n <= |image| then image[from..from + n] else []
  }

  /** The length of chunk k of a block. */
  function PartLen(k: nat, len: nat, chunkSize: nat): nat
    requires chunkSize > 0
  {
    var full := ChunkOff(chunkSize, ChunksOf(len, chunkSize) - 1);
    if k + 1 < ChunksOf(len, chunkSize) then chunkSize else if len >= full then len - full else 0
  }

  /** A block of the image in its chunks. */
  function BlockCut(image: seq<Byte>, src: nat, len: nat, chunkSize: nat): (cut: seq<seq<Byte>>)
    requires chunkSize > 0
    ensures |cut| == ChunksOf(len, chunkSize)
  {
    seq(ChunksOf(len, chunkSize),
        k requires 0 <= k => Slice(image, src + ChunkOff(chunkSize, k), PartLen(k, len, chunkSize)))
  }

  function BlockStart(p: Params, i: nat): nat {
    p.startAddress + i * p.blockSize
  }

  /** Block i, cut off at the certificates. */
  function BlockLen(p: Params, i: nat): nat {
    if BlockStart(p, i) + p.blockSize <= p.acOffset then p.blockSize
    else if BlockStart(p, i) <= p.acOffset then p.acOffset - BlockStart(p, i)
    else 0
  }

  /** The first n blocks of the image, in chunks. */
  function Cut(image: seq<Byte>, p: Params, n: nat): seq<seq<Byte>>
    requires p.chunkSize > 0
  {
    if n == 0 then []
    else Cut(image, p, n - 1) + BlockCut(image, BlockStart(p, n - 1), BlockLen(p, n - 1), p.chunkSize)
  }

  /** Certificate i is trusted and signs block i, with all of itself but its last 512 bytes. */
  predicate Certified(c: Crypto, p: Params, image: seq<Byte>, i: nat) {
    var cert := Slice(image, p.acOffset + i * AUTH_CERT_SIZE, AUTH_CERT_SIZE);
    && |cert| == AUTH_CERT_SIZE && c.Trusts(cert)
    && c.Signs(cert, c.final(Slice(image, BlockStart(p, i), BlockLen(p, i)) + cert[..3776 - 512]))
  }

  /** PCAP takes every part of the image; or its chunks are cut cleanly and the AES engine
      approves of the stream they make. */
  ghost predicate SinkWilling(c: Crypto, p: Params, e: Engine, image: seq<Byte>, n: nat)
    requires p.chunkSize > 0
  {
    var cut := Cut(image, p, n);
    if p.isEncrypted then
      (forall i :: 0 <= i < |cut| ==> CleanAt(e, cut, i)) && Approves(e, Concat(cut))
    else forall bytes :: bytes <= Concat(cut) ==> c.pcapDone(bytes)
  }

  /** A partition of n blocks that nobody has a reason to refuse. */
  ghost predicate Wholesome(c: Crypto, d: Device, p: Params, e: Engine, image: seq<Byte>, n: nat)
    requires p.chunkSize > 0
  {
    && LaidOut(p, n) && ReadsWell(d, image) && p.acOffset + n * AUTH_CERT_SIZE <= |image|
    && !p.TooManyChunks(p.blockSize)
    && (forall i :: 0 <= i < n ==> Certified(c, p, image, i))
    && SinkWilling(c, p, e, image, n)
  }

  lemma WellIsSteady(d: Device, image: seq<Byte>, src: nat, chunks: seq<seq<Byte>>)
    requires ReadsWell(d, image) && Fetched(d, src, chunks) && src + |Concat(chunks)| <= |image|
    ensures Shows(image, src, Concat(chunks))
    decreases |chunks|
  {
    if chunks != [] {
      hide ReadsWell;
      hide ReadAt;
      hide Shows;
      var front, last := chunks[..|chunks| - 1], chunks[|chunks| - 1];
      WellIsSteady(d, image, src, front);
      WellRead(d, image, src + |Concat(front)|, last);
      ShowsMore(image, src, Concat(front), last);
    }
  }

  lemma WellRead(d: Device, image: seq<Byte>, src: nat, chunk: seq<Byte>)
    requires ReadsWell(d, image) && ReadAt(d, src, chunk) && src + |chunk| <= |image|
    ensures Shows(image, src, chunk) && chunk == Slice(image, src, |chunk|)
  {
    var t: nat :| CopyOut(d, t, src, |chunk|) == Some(chunk);
    assert CopyOut(d, t, src, |chunk|) == Some(image[src..src + |chunk|]);
  }

  /** Where block i of a partition lies. */
  lemma BlockInside(p: Params, n: nat, i: nat)
    requires LaidOut(p, n) && i < n
    ensures BlockStart(p, i) + BlockLen(p, i) <= p.acOffset && BlockLen(p, i) <= p.blockSize
    ensures p.acOffset + i * AUTH_CERT_SIZE + AUTH_CERT_SIZE <= p.acOffset + n * AUTH_CERT_SIZE
  {
    MulMono(i, n - 1, p.blockSize);
    MulMono(i + 1, n, AUTH_CERT_SIZE);
  }

  /** No block of a wholesome partition has an excuse. */
  lemma NoExcuse(c: Crypto, d: Device, p: Params, e: Engine, image: seq<Byte>, n: nat, i: nat, r: Result)
    requires p.chunkSize > 0 && Wholesome(c, d, p, e, image, n) && i < n
    ensures !Excuse(c, d, p, r, BlockStart(p, i), BlockLen(p, i), p.acOffset + i * AUTH_CERT_SIZE)
  {
    hide SinkWilling;
    hide ReadsWell;
    hide LaidOut;
    hide BlockStart;
    hide BlockLen;
    hide Fetched;
    hide ReadAt;
    hide CopyFails;
    hide Disagree;
    var src, len, certAddr := BlockStart(p, i), BlockLen(p, i), p.acOffset + i * AUTH_CERT_SIZE;
    BlockInside(p, n, i);
    assert Certified(c, p, image, i);
    NoCopyFails(d, image, src, len);
    NoCopyFails(d, image, certAddr, AUTH_CERT_SIZE);
    NoDisagreement(c, d, image, src, len);
    forall cert | CertAt(d, certAddr, cert)
      ensures cert == Slice(image, certAddr, AUTH_CERT_SIZE)
    {
      WellRead(d, image, certAddr, cert);
    }
    forall cert, chunks | CertAt(d, certAddr, cert) && Fetched(d, src, chunks) && |Concat(chunks)| == len
      ensures Concat(chunks) == Slice(image, src, len)
    {
      WellIsSteady(d, image, src, chunks);
    }
  }

  lemma NoCopyFails(d: Device, image: seq<Byte>, src: nat, n: nat)
    requires ReadsWell(d, image) && src + n <= |image|
    ensures !CopyFails(d, src, n)
  {
  }

  lemma NoDisagreement(c: Crypto, d: Device, image: seq<Byte>, src: nat, len: nat)
    requires ReadsWell(d, image) && src + len <= |image|
    ensures !Disagree(c, d, src, len)
  {
    hide ReadsWell;
    hide Fetched;
    hide Concat;
    forall a, b | Fetched(d, src, a) && Fetched(d, src, b) && |Concat(a)| == |Concat(b)| <= len
      ensures Concat(a) == Concat(b)
    {
      WellIsSteady(d, image, src, a);
      WellIsSteady(d, image, src, b);
    }
  }

  /** Full chunks end where the next one begins. */
  lemma {:induction false} FullChunks(chunks: seq<seq<Byte>>, n: nat, chunkSize: nat, len: nat)
    requires Splits(n, chunkSize, len) && |chunks| < n && Chunked(chunks, n, chunkSize, len)
    ensures |Concat(chunks)| == ChunkOff(chunkSize, |chunks|)
    decreases |chunks|
  {
    if chunks != [] {
      var k := |chunks| - 1;
      FullChunks(chunks[..k], n, chunkSize, len);
      ChunkStep(k, n, chunkSize, len);
    }
  }

  /** Chunks of the right lengths, read well, are the beginning of the block's cut. */
  lemma {:induction false} ReadsTheCut(d: Device, image: seq<Byte>, src: nat, chunks: seq<seq<Byte>>,
                                       len: nat, chunkSize: nat)
    requires chunkSize > 0 && ReadsWell(d, image) && Fetched(d, src, chunks) && src + len <= |image|
    requires Splits(ChunksOf(len, chunkSize), chunkSize, len) && |chunks| <= ChunksOf(len, chunkSize)
    requires Chunked(chunks, ChunksOf(len, chunkSize), chunkSize, len)
    ensures chunks <= BlockCut(image, src, len, chunkSize)
    decreases |chunks|
  {
    hide ReadsWell;
    hide ReadAt;
    hide BlockCut;
    hide ChunksOf;
    hide Concat;
    if chunks != [] {
      var k := |chunks| - 1;
      ReadsTheCut(d, image, src, chunks[..k], len, chunkSize);
      LastPart(d, image, src, chunks, len, chunkSize);
      assert chunks == chunks[..k] + [chunks[k]];
    }
  }

  lemma LastPart(d: Device, image: seq<Byte>, src: nat, chunks: seq<seq<Byte>>, len: nat, chunkSize: nat)
    requires chunkSize > 0 && ReadsWell(d, image) && Fetched(d, src, chunks) && src + len <= |image|
    requires Splits(ChunksOf(len, chunkSize), chunkSize, len) && 0 < |chunks| <= ChunksOf(len, chunkSize)
    requires Chunked(chunks, ChunksOf(len, chunkSize), chunkSize, len)
    ensures chunks[|chunks| - 1] == BlockCut(image, src, len, chunkSize)[|chunks| - 1]
  {
    hide ReadsWell;
    hide ReadAt;
    hide BlockCut;
    hide ChunksOf;
    hide Concat;
    hide Slice;
    hide ChunkOff;
    var k, n := |chunks| - 1, ChunksOf(len, chunkSize);
    FullChunks(chunks[..k], n, chunkSize, len);
    ChunkInside(k, n, chunkSize, len);
    WellRead(d, image, src + ChunkOff(chunkSize, k), chunks[k]);
    CutPart(image, src, len, chunkSize, k);
  }

  lemma ChunkInside(k: nat, n: nat, chunkSize: nat, len: nat)
    requires k < n && Splits(n, chunkSize, len)
    ensures ChunkOff(chunkSize, k) + ChunkLen(k, n, chunkSize, len) <= len
  {
    ChunkStep(k, n, chunkSize, len);
  }

  lemma CutPart(image: seq<Byte>, src: nat, len: nat, chunkSize: nat, k: nat)
    requires chunkSize > 0 && k < ChunksOf(len, chunkSize) && Splits(ChunksOf(len, chunkSize), chunkSize, len)
    ensures BlockCut(image, src, len, chunkSize)[k] ==
            Slice(image, src + ChunkOff(chunkSize, k), ChunkLen(k, ChunksOf(len, chunkSize), chunkSize, len))
  {
    hide ChunksOf;
    hide ChunkOff;
    hide Slice;
  }

  /** What an accepted block released is the beginning of its cut. */
  lemma BlockIsCut(c: Crypto, d: Device, image: seq<Byte>, b: Block, chunkSize: nat)
    requires ReadsWell(d, image) && Rechecked(c, b) && Fetched(d, b.src, b.second) && Shaped(b, chunkSize)
    requires b.src + |Concat(b.first)| <= |image|
    ensures b.second <= BlockCut(image, b.src, |Concat(b.first)|, chunkSize)
    ensures Complete(b) ==> b.second == BlockCut(image, b.src, |Concat(b.first)|, chunkSize)
  {
    hide ReadsWell;
    hide Fetched;
    hide HashesMeet;
    hide ChunksOf;
    ReadsTheCut(d, image, b.src, b.second, |Concat(b.first)|, chunkSize);
  }

  lemma {:induction false} CutGrows(image: seq<Byte>, p: Params, m: nat, n: nat)
    requires p.chunkSize > 0 && m <= n
    ensures Cut(image, p, m) <= Cut(image, p, n)
    decreases n
  {
    if m < n {
      CutGrows(image, p, m, n - 1);
    }
  }

  lemma NothingCut(image: seq<Byte>, p: Params)
    requires p.chunkSize > 0
    ensures Cut(image, p, 0) == [] && Released([]) == []
  {
  }

  lemma CutStep(image: seq<Byte>, p: Params, n: nat)
    requires p.chunkSize > 0
    ensures Cut(image, p, n + 1) == Cut(image, p, n) + BlockCut(image, BlockStart(p, n), BlockLen(p, n), p.chunkSize)
  {
  }

  lemma ReleasedStep(blocks: seq<Block>)
    requires blocks != []
    ensures Released(blocks) == Released(blocks[..|blocks| - 1]) + blocks[|blocks| - 1].second
  {
  }

  /** A stream that is a beginning of another one shares its good properties. */
  lemma BeginningIsFine(e: Engine, small: seq<seq<Byte>>, large: seq<seq<Byte>>)
    requires small <= large && Approves(e, Concat(large)) && forall i :: 0 <= i < |large| ==> CleanAt(e, large, i)
    ensures Approves(e, Concat(small)) && forall i :: 0 <= i < |small| ==> CleanAt(e, small, i)
  {
    hide Concat;
    hide CleanAt;
    hide Approves;
    ConcatPrefix(large, |small|);
    assert large[..|small|] == small;
    ApprovesLess(e, Concat(small), Concat(large));
    forall i | 0 <= i < |small|
      ensures CleanAt(e, small, i)
    {
      SameCut(e, small, large, i);
    }
  }

  lemma ApprovesLess(e: Engine, a: seq<Byte>, b: seq<Byte>)
    requires a <= b && Approves(e, b)
    ensures Approves(e, a)
  {
    hide Parse;
    ParsePrefix(e, a, b);
  }

  lemma SameCut(e: Engine, small: seq<seq<Byte>>, large: seq<seq<Byte>>, i: nat)
    requires small <= large && i < |small| && CleanAt(e, large, i)
    ensures CleanAt(e, small, i)
  {
    hide Parse;
    hide CutsCleanly;
    assert small[..i] == large[..i] && small[i] == large[i];
  }
}
