/** Streaming decryption of an encrypted bitstream.
    The stream is a secure header and its GCM tag, then blocks; every block is its
    payload followed by the header and tag that announce the next block.  Chunks cut the
    stream anywhere, so the decryptor carries the number of payload bytes still due. */
module PlDecrypt {
  import opened Common

  const HDR_SIZE: nat := 48
  const TAG_SIZE: nat := 16
  const TRAILER: nat := 64   // HDR_SIZE + TAG_SIZE
  const LOOKAHEAD: nat := 96 // HDR_SIZE + HDR_SIZE, the sum the next-block test uses

  /** What the AES engine is fed; `Vector` is its own register, fed back for the next block. */
  datatype Fed = Payload(b: Byte) | Header(b: Byte) | Tag(b: Byte) | Vector
  type Trace = seq<Fed>

  /** `Wrapped` stands for the run-away size of an opening chunk shorter than its header. */
  datatype Status = Success | PcapError | GcmMismatch | Wrapped

  /** The AES engine and PCAP as functions of everything fed so far: the word count the IV
      register shows after a header, the GCM verdict, and whether PCAP reports done. */
  datatype Engine = Engine(nextWords: Trace -> nat, gcmOk: Trace -> bool, pcapDone: Trace -> bool)

  function NextLen(e: Engine, fed: Trace): (n: nat)
    ensures n % 4 == 0 && n < U32
  {
    (e.nextWords(fed) * 4) % U32
  }

  // ---------------------------------------------------------------- the byte parser

  /** The reference: one byte at a time, with no notion of a chunk. `due` payload bytes of the
      current block are missing; `pos` bytes of its trailer have been seen; `run` payload
      bytes have followed the last complete trailer. */
  datatype Parser = Parser(due: nat, pos: nat, run: nat, done: bool, fed: Trace)

  const START := Parser(0, 0, 0, false, [])

  function Step(e: Engine, p: Parser, b: Byte): Parser
    requires p.pos < TRAILER
  {
    if p.done then p
    else if p.due > 0 then p.(due := p.due - 1, run := p.run + 1, fed := p.fed + [Payload(b)])
    else
      var fed := p.fed + [if p.pos < HDR_SIZE then Header(b) else Tag(b)];
      if p.pos + 1 < TRAILER then p.(pos := p.pos + 1, fed := fed)
      else Parser(NextLen(e, fed), 0, 0, NextLen(e, fed) == 0, fed + [Vector])
  }

  function Parse(e: Engine, p: Parser, bytes: seq<Byte>): (q: Parser)
    requires p.pos < TRAILER
    ensures q.pos < TRAILER
    decreases |bytes|
  {
    if bytes == [] then p else Parse(e, Step(e, p, bytes[0]), bytes[1..])
  }

  /** Chunk boundaries do not matter to the parser. */
  lemma {:induction false} ParseConcat(e: Engine, p: Parser, a: seq<Byte>, b: seq<Byte>)
    requires p.pos < TRAILER
    ensures Parse(e, p, a + b) == Parse(e, Parse(e, p, a), b)
    decreases |a|
  {
    if a == [] {
      assert a + b == b;
    } else {
      assert (a + b)[1..] == a[1..] + b;
      ParseConcat(e, Step(e, p, a[0]), a[1..], b);
    }
  }

  function Payloads(s: seq<Byte>): (t: Trace)
    ensures |t| == |s| && forall i :: 0 <= i < |s| ==> t[i] == Payload(s[i])
  {
    seq(|s|, i requires 0 <= i < |s| => Payload(s[i]))
  }

  function Headers(s: seq<Byte>): (t: Trace)
    ensures |t| == |s| && forall i :: 0 <= i < |s| ==> t[i] == Header(s[i])
  {
    seq(|s|, i requires 0 <= i < |s| => Header(s[i]))
  }

  function Tags(s: seq<Byte>): (t: Trace)
    ensures |t| == |s| && forall i :: 0 <= i < |s| ==> t[i] == Tag(s[i])
  {
    seq(|s|, i requires 0 <= i < |s| => Tag(s[i]))
  }

  lemma {:induction false} ParsePayload(e: Engine, p: Parser, s: seq<Byte>)
    requires p.pos < TRAILER && !p.done && |s| <= p.due
    ensures Parse(e, p, s) == p.(due := p.due - |s|, run := p.run + |s|, fed := p.fed + Payloads(s))
    decreases |s|
  {
    if s == [] {
      assert Payloads(s) == [];
    } else {
      ParsePayload(e, Step(e, p, s[0]), s[1..]);
      assert p.fed + [Payload(s[0])] + Payloads(s[1..]) == p.fed + Payloads(s);
    }
  }

  /** The part of a trailer that is not yet complete leaves the parser waiting in it. */
  lemma {:induction false} ParsePartialTrailer(e: Engine, p: Parser, s: seq<Byte>)
    requires !p.done && p.due == 0 && p.pos + |s| < TRAILER
    ensures var q := Parse(e, p, s);
            q.due == 0 && q.pos == p.pos + |s| && !q.done && q.run == p.run && |q.fed| == |p.fed| + |s|
    decreases |s|
  {
    if s != [] {
      ParsePartialTrailer(e, Step(e, p, s[0]), s[1..]);
    }
  }

  lemma {:induction false} ParseHeader(e: Engine, p: Parser, s: seq<Byte>)
    requires !p.done && p.due == 0 && p.pos + |s| <= HDR_SIZE
    ensures Parse(e, p, s) == p.(pos := p.pos + |s|, fed := p.fed + Headers(s))
    decreases |s|
  {
    if s == [] {
      assert Headers(s) == [];
    } else {
      ParseHeader(e, Step(e, p, s[0]), s[1..]);
      assert p.fed + [Header(s[0])] + Headers(s[1..]) == p.fed + Headers(s);
    }
  }

  lemma {:induction false} ParseTag(e: Engine, p: Parser, s: seq<Byte>)
    requires !p.done && p.due == 0 && HDR_SIZE <= p.pos && p.pos + |s| == TRAILER && s != []
    ensures var fed := p.fed + Tags(s);
            Parse(e, p, s) == Parser(NextLen(e, fed), 0, 0, NextLen(e, fed) == 0, fed + [Vector])
    decreases |s|
  {
    assert p.fed + [Tag(s[0])] + Tags(s[1..]) == p.fed + Tags(s);
    var p1 := Step(e, p, s[0]);
    if |s| > 1 {
      ParseTag(e, p1, s[1..]);
    } else {
      assert p.fed + [Tag(s[0])] == p.fed + Tags(s);
      assert Parse(e, p1, []) == p1 && s[1..] == [];
    }
  }

  lemma {:induction false} ParseDone(e: Engine, p: Parser, s: seq<Byte>)
    requires p.done && p.pos < TRAILER
    ensures Parse(e, p, s) == p
    decreases |s|
  {
    if s != [] {
      ParseDone(e, p, s[1..]);
    }
  }

  // ---------------------------------------------------------------- the chunk decryptor

  /** A chunk is a window of memory, and reads can leave the window. */
  function Read(mem: Memory, addr: nat, n: nat): (s: seq<Byte>)
    ensures |s| == n
    ensures forall i :: 0 <= i < n ==> s[i] == mem(addr + i)
  {
    seq(n, i requires 0 <= i < n => mem(addr + i))
  }

  /** What survives from one chunk to the next. */
  datatype Carry = Carry(nextBlkLen: nat, sizeofData: nat, fed: Trace)

  datatype Outcome = Outcome(status: Status, carry: Carry)

  function FeedPayload(c: Carry, mem: Memory, addr: nat, n: nat): Carry {
    c.(fed := c.fed + Payloads(Read(mem, addr, n / 4 * 4)))
  }

  function FeedTrailer(fed: Trace, mem: Memory, addr: nat): Trace {
    fed + Headers(Read(mem, addr, HDR_SIZE)) + Tags(Read(mem, addr + HDR_SIZE, TAG_SIZE))
  }

  /** XFsbl_DecrptPl: payload up to the end of the block, then its trailer if the block is
      exhausted.  `at` is 0 when nothing of the next block lies in the chunk. */
  function DecryptChunk(e: Engine, c: Carry, mem: Memory, addr: nat, size: nat): Outcome
    requires size + LOOKAHEAD < U32
    decreases size, 3
  {
    var due := c.sizeofData;
    if size <= due && due != 0 then
      var c1 := FeedPayload(c, mem, addr, size).(sizeofData := due - size);
      if !e.pcapDone(c1.fed) then Outcome(PcapError, c1)
      else if c1.sizeofData != 0 then Outcome(Success, c1)
      else ReadTrailer(e, c1, mem, addr, 0, size)
    else
      var c1 := FeedPayload(c, mem, addr, due).(sizeofData := 0);
      if !e.pcapDone(c1.fed) then Outcome(PcapError, c1)
      else if size > due + LOOKAHEAD then
        ReadTrailer(e, c1, mem, addr + due, addr + due + TRAILER, size - (due + TRAILER))
      else ReadTrailer(e, c1, mem, addr + due, 0, size)
  }

  /** XFsbl_DecrypSecureHdr followed by XFsbl_DecrptSetUpNextBlk. */
  function ReadTrailer(e: Engine, c: Carry, mem: Memory, trailer: nat, at: nat, size: nat): Outcome
    requires size + LOOKAHEAD < U32
    decreases size, if at == 0 then 2 else 5
  {
    var c1 := c.(fed := FeedTrailer(c.fed, mem, trailer));
    if !e.gcmOk(c1.fed) then Outcome(GcmMismatch, c1)
    else SetUpNextBlk(e, c1, mem, at, size)
  }

  function SetUpNextBlk(e: Engine, c: Carry, mem: Memory, at: nat, size: nat): Outcome
    requires size + LOOKAHEAD < U32
    decreases size, if at == 0 then 1 else 4
  {
    var n := NextLen(e, c.fed);
    var c1 := c.(nextBlkLen := n, sizeofData := n, fed := c.fed + [Vector]);
    if at != 0 && n != 0 then DecryptChunk(e, c1, mem, at, size) else Outcome(Success, c1)
  }

  /** XFsbl_DecrptPlChunks: the very first chunk starts with a secure header. */
  function DecryptChunks(e: Engine, c: Carry, mem: Memory, addr: nat, size: nat): Outcome
    requires size + LOOKAHEAD < U32
  {
    if c.nextBlkLen == 0 then
      if size < TRAILER then Outcome(Wrapped, c)
      else ReadTrailer(e, c, mem, addr, addr + TRAILER, size - TRAILER)
    else DecryptChunk(e, c, mem, addr, size)
  }

  // ---------------------------------------------------------------- refinement

  /** The carry and the parser agree between two chunks. */
  predicate Matches(c: Carry, p: Parser) {
    && p.pos == 0 && c.fed == p.fed && c.sizeofData == p.due && p.due % 4 == 0
    && (c.nextBlkLen == 0 <==> p.due == 0)
  }

  /** Where a chunk may end, read off the parser after it: in the middle of a payload, not
      within HDR_SIZE - TAG_SIZE bytes after a trailer that the same chunk completed. `n`
      is the chunk's length, less the header that opens the stream. */
  predicate CutsCleanly(q: Parser, n: nat) {
    q.done || (q.due > 0 && (q.run >= n || q.run == 0 || q.run > HDR_SIZE - TAG_SIZE))
  }

  lemma ReadSplit(mem: Memory, addr: nat, m: nat, n: nat)
    requires m <= n
    ensures Read(mem, addr, n) == Read(mem, addr, m) + Read(mem, addr + m, n - m)
  {
  }

  lemma ParseTrailer(e: Engine, p: Parser, mem: Memory, addr: nat)
    requires !p.done && p.due == 0 && p.pos == 0
    ensures var fed := FeedTrailer(p.fed, mem, addr);
            Parse(e, p, Read(mem, addr, TRAILER)) == Parser(NextLen(e, fed), 0, 0, NextLen(e, fed) == 0, fed + [Vector])
  {
    var h, t := Read(mem, addr, HDR_SIZE), Read(mem, addr + HDR_SIZE, TAG_SIZE);
    ReadSplit(mem, addr, HDR_SIZE, TRAILER);
    ParseConcat(e, p, h, t);
    ParseHeader(e, p, h);
    ParseTag(e, Parse(e, p, h), t);
  }

  /** A chunk that ends soon after a trailer is never clean, and all its bytes are due. */
  lemma ShortTail(e: Engine, p: Parser, s: seq<Byte>, n: nat)
    requires !p.done && p.pos == 0 && p.run == 0 && p.due > 0
    requires 0 < |s| <= HDR_SIZE - TAG_SIZE && |s| < n
    ensures !CutsCleanly(Parse(e, p, s), n) && |Parse(e, p, s).fed| == |p.fed| + |s|
  {
    if |s| <= p.due {
      ParsePayload(e, p, s);
    } else {
      assert s == s[..p.due] + s[p.due..];
      ParseConcat(e, p, s[..p.due], s[p.due..]);
      ParsePayload(e, p, s[..p.due]);
      ParsePartialTrailer(e, Parse(e, p, s[..p.due]), s[p.due..]);
    }
  }

  /** What one chunk of the code does against what the parser does with the same bytes. */
  predicate Refines(o: Outcome, q: Parser, n: nat) {
    && (CutsCleanly(q, n) ==> o.carry.fed <= q.fed)
    && (o.status == Success && CutsCleanly(q, n) ==> Matches(o.carry, q))
    && (o.status == Success && !CutsCleanly(q, n) ==> |o.carry.fed| != |q.fed|)
  }

  /** A chunk after the first one: the bytes reach the AES engine in stream order exactly when
      the chunk is cut cleanly. */
  lemma {:induction false} ChunkRefines(e: Engine, c: Carry, p: Parser, mem: Memory, addr: nat, size: nat)
    requires Matches(c, p) && p.due > 0 && !p.done
    requires addr > 0 && size % 4 == 0 && size + LOOKAHEAD < U32
    ensures Refines(DecryptChunk(e, c, mem, addr, size), Parse(e, p, Read(mem, addr, size)), size)
    decreases size
  {
    hide Parse;
    hide Step;
    var due := p.due;
    if size <= due {
      ParsePayload(e, p, Read(mem, addr, size));
      var c1 := FeedPayload(c, mem, addr, size).(sizeofData := 0);
      if size == due && e.pcapDone(c1.fed) {
        assert DecryptChunk(e, c, mem, addr, size) == ReadTrailer(e, c1, mem, addr, 0, size);
        var c2 := c1.(fed := FeedTrailer(c1.fed, mem, addr));
        if e.gcmOk(c2.fed) {
          assert DecryptChunk(e, c, mem, addr, size) == SetUpNextBlk(e, c2, mem, 0, size);
          assert |c2.fed| == |c1.fed| + TRAILER && |c1.fed| == |c.fed| + size;
        }
      }
    } else {
      ReadSplit(mem, addr, due, size);
      var p1 := Parse(e, p, Read(mem, addr, due));
      var rest := Read(mem, addr + due, size - due);
      ParseConcat(e, p, Read(mem, addr, due), rest);
      ParsePayload(e, p, Read(mem, addr, due));
      ChunkBeyondBlock(e, c, mem, addr, size);
      if size - due < TRAILER {
        ParsePartialTrailer(e, p1, rest);
      } else {
        ChunkRefinesAtTrailer(e, c, p1, mem, addr, size);
      }
    }
  }

  /** The code's own steps when the chunk holds the rest of the block and more. */
  lemma ChunkBeyondBlock(e: Engine, c: Carry, mem: Memory, addr: nat, size: nat)
    requires addr > 0 && size + LOOKAHEAD < U32 && 0 < c.sizeofData < size
    ensures var due := c.sizeofData;
            var o := DecryptChunk(e, c, mem, addr, size);
            var fed1 := FeedPayload(c, mem, addr, due).fed;
            var fed2 := FeedTrailer(fed1, mem, addr + due);
            var n := NextLen(e, fed2);
            if !e.pcapDone(fed1) then o.status == PcapError && o.carry.fed == fed1
            else if !e.gcmOk(fed2) then o.status == GcmMismatch && o.carry.fed == fed2
            else if size > due + LOOKAHEAD && n != 0 then
              o == DecryptChunk(e, Carry(n, n, fed2 + [Vector]), mem, addr + due + TRAILER, size - due - TRAILER)
            else o == Outcome(Success, Carry(n, n, fed2 + [Vector]))
  {
    var due := c.sizeofData;
    var c1 := FeedPayload(c, mem, addr, due).(sizeofData := 0);
    var c2 := c1.(fed := FeedTrailer(c1.fed, mem, addr + due));
    if e.pcapDone(c1.fed) && e.gcmOk(c2.fed) {
      var at := if size > due + LOOKAHEAD then addr + due + TRAILER else 0;
      var left := if size > due + LOOKAHEAD then size - (due + TRAILER) else size;
      assert DecryptChunk(e, c, mem, addr, size) == SetUpNextBlk(e, c2, mem, at, left);
    }
  }

  lemma {:induction false} ChunkRefinesAtTrailer(e: Engine, c: Carry, p1: Parser, mem: Memory, addr: nat, size: nat)
    requires !p1.done && p1.due == 0 && p1.pos == 0 && 0 < c.sizeofData && c.sizeofData % 4 == 0
    requires addr > 0 && size % 4 == 0 && size + LOOKAHEAD < U32 && c.sizeofData + TRAILER <= size
    requires p1.fed == FeedPayload(c, mem, addr, c.sizeofData).fed
    ensures Refines(DecryptChunk(e, c, mem, addr, size),
                    Parse(e, p1, Read(mem, addr + c.sizeofData, size - c.sizeofData)), size)
    decreases size, 0
  {
    hide Parse;
    hide Step;
    hide DecryptChunk;
    var due := c.sizeofData;
    var at := addr + due + TRAILER;
    var left := size - due - TRAILER;
    ReadSplit(mem, addr + due, TRAILER, size - due);
    var p2 := Parse(e, p1, Read(mem, addr + due, TRAILER));
    ParseConcat(e, p1, Read(mem, addr + due, TRAILER), Read(mem, at, left));
    ParseTrailer(e, p1, mem, addr + due);
    ChunkBeyondBlock(e, c, mem, addr, size);
    ParseGrows(e, p2, Read(mem, at, left));
    if !p2.done && left > HDR_SIZE - TAG_SIZE {
      ChunkRefines(e, Carry(p2.due, p2.due, p2.fed), p2, mem, at, left);
    } else {
      TailIgnored(e, p2, Read(mem, at, left), size);
    }
  }

  /** What the code leaves of a chunk when it takes nothing more after a trailer. */
  lemma TailIgnored(e: Engine, p: Parser, s: seq<Byte>, n: nat)
    requires p.pos == 0 && p.run == 0 && (p.done <==> p.due == 0) && |s| < n
    requires p.done || |s| <= HDR_SIZE - TAG_SIZE
    ensures p.done || s == [] ==> Parse(e, p, s) == p
    ensures !p.done && s != [] ==> !CutsCleanly(Parse(e, p, s), n) && |Parse(e, p, s).fed| == |p.fed| + |s|
  {
    if p.done {
      ParseDone(e, p, s);
    } else if s != [] {
      ShortTail(e, p, s, n);
    }
  }

  lemma {:induction false} ParseGrows(e: Engine, p: Parser, s: seq<Byte>)
    requires p.pos < TRAILER
    ensures p.fed <= Parse(e, p, s).fed
    decreases |s|
  {
    if s != [] {
      ParseGrows(e, Step(e, p, s[0]), s[1..]);
    }
  }

  // ---------------------------------------------------------------- whole streams

  /** A chunk in its buffer: what the DMA finds past the chunk is up to `beyond`. */
  function Window(chunk: seq<Byte>, base: nat, beyond: Memory): Memory {
    (a: nat) => if base <= a < base + |chunk| then chunk[a - base] else beyond(a)
  }

  const COLD := Carry(0, 0, [])

  ghost predicate Fits(chunks: seq<seq<Byte>>) {
    forall i :: 0 <= i < |chunks| ==> |chunks[i]| % 4 == 0 && |chunks[i]| + LOOKAHEAD < U32
  }

  function Concat(chunks: seq<seq<Byte>>): seq<Byte> {
    if chunks == [] then [] else Concat(chunks[..|chunks| - 1]) + chunks[|chunks| - 1]
  }

  /** The decryptor over a run of chunks, stopping at the first failure; every chunk may have
      other bytes around it. */
  function FeedAll(e: Engine, chunks: seq<seq<Byte>>, base: nat, beyond: seq<Memory>): Outcome
    requires Fits(chunks) && |beyond| == |chunks|
  {
    if chunks == [] then Outcome(Success, COLD)
    else
      var n := |chunks| - 1;
      var o := FeedAll(e, chunks[..n], base, beyond[..n]);
      if o.status != Success then o
      else DecryptChunks(e, o.carry, Window(chunks[n], base, beyond[n]), base, |chunks[n]|)
  }

  /** The opening chunk, whose first TRAILER bytes are the stream's own header and tag. */
  lemma OpeningRefines(e: Engine, mem: Memory, addr: nat, size: nat)
    requires addr > 0 && size % 4 == 0 && size + LOOKAHEAD < U32 && size >= TRAILER
    ensures Refines(DecryptChunks(e, COLD, mem, addr, size), Parse(e, START, Read(mem, addr, size)), size - TRAILER)
  {
    var at, left := addr + TRAILER, size - TRAILER;
    var rest := Read(mem, at, left);
    ReadSplit(mem, addr, TRAILER, size);
    ParseConcat(e, START, Read(mem, addr, TRAILER), rest);
    ParseTrailer(e, START, mem, addr);
    var p := Parse(e, START, Read(mem, addr, TRAILER));
    var c := Carry(p.due, p.due, p.fed);
    ParseGrows(e, p, rest);
    var fed := FeedTrailer([], mem, addr);
    if e.gcmOk(fed) {
      assert DecryptChunks(e, COLD, mem, addr, size) == SetUpNextBlk(e, COLD.(fed := fed), mem, at, left);
      if p.done {
        ParseDone(e, p, rest);
      } else {
        ChunkRefines(e, c, p, mem, at, left);
      }
    }
  }

  /** Chunk n of the stream ends where the decryptor can resume. */
  ghost predicate CleanAt(e: Engine, chunks: seq<seq<Byte>>, n: nat)
    requires n < |chunks|
  {
    var p := Parse(e, START, Concat(chunks[..n]));
    var opening := if n == 0 then TRAILER else 0;
    && !p.done
    && |chunks[n]| >= opening
    && CutsCleanly(Parse(e, p, chunks[n]), |chunks[n]| - opening)
  }

  ghost predicate EndedBeforeLast(e: Engine, chunks: seq<seq<Byte>>)
    requires chunks != []
  {
    Parse(e, START, Concat(chunks[..|chunks| - 1])).done
  }

  /** The stream theorem.  As long as every chunk but possibly the last one is cut cleanly,
      the bytes fed to the AES engine are the parser's, a function of the concatenated stream
      alone; the last chunk spoils that exactly when it is not cut cleanly. */
  lemma {:induction false} StreamRefines(e: Engine, chunks: seq<seq<Byte>>, base: nat, beyond: seq<Memory>)
    requires Fits(chunks) && |beyond| == |chunks| && base > 0
    requires forall i :: 0 <= i < |chunks| - 1 ==> CleanAt(e, chunks, i)
    ensures var o := FeedAll(e, chunks, base, beyond);
            var q := Parse(e, START, Concat(chunks));
            chunks == [] || CleanAt(e, chunks, |chunks| - 1) ==>
              o.carry.fed <= q.fed && (o.status == Success ==> Matches(o.carry, q))
    ensures var o := FeedAll(e, chunks, base, beyond);
            var q := Parse(e, START, Concat(chunks));
            chunks != [] && o.status == Success && !EndedBeforeLast(e, chunks) ==>
              (o.carry.fed == q.fed <==> CleanAt(e, chunks, |chunks| - 1))
    decreases |chunks|
  {
    if chunks != [] {
      hide CutsCleanly;
      var n := |chunks| - 1;
      var front, last := chunks[..n], chunks[n];
      forall i | 0 <= i < n
        ensures CleanAt(e, front, i)
      {
        assert CleanAt(e, chunks, i) && front[..i] == chunks[..i];
      }
      StreamRefines(e, front, base, beyond[..n]);
      var p := Parse(e, START, Concat(front));
      var o := FeedAll(e, front, base, beyond[..n]);
      var mem := Window(last, base, beyond[n]);
      ParseConcat(e, START, Concat(front), last);
      assert Read(mem, base, |last|) == last;
      ParseGrows(e, p, last);
      if n == 0 {
        if |last| >= TRAILER {
          OpeningRefines(e, mem, base, |last|);
        }
      } else if o.status == Success && !p.done {
        OpenAfterFirst(e, front);
        ChunkRefines(e, o.carry, p, mem, base, |last|);
      }
    }
  }

  /** After a cleanly cut first chunk a block is open, unless the stream has ended. */
  lemma OpenAfterFirst(e: Engine, chunks: seq<seq<Byte>>)
    requires chunks != [] && CleanAt(e, chunks, |chunks| - 1)
    ensures var q := Parse(e, START, Concat(chunks)); q.done || q.due > 0
  {
    ParseConcat(e, START, Concat(chunks[..|chunks| - 1]), chunks[|chunks| - 1]);
  }

  /** The AES engine cannot tell how a stream was cut. */
  lemma CuttingIsInvisible(e: Engine, base: nat, a: seq<seq<Byte>>, x: seq<Memory>, b: seq<seq<Byte>>, y: seq<Memory>)
    requires base > 0 && Fits(a) && Fits(b) && |a| == |x| && |b| == |y| && Concat(a) == Concat(b)
    requires forall i :: 0 <= i < |a| ==> CleanAt(e, a, i)
    requires forall i :: 0 <= i < |b| ==> CleanAt(e, b, i)
    requires FeedAll(e, a, base, x).status == Success && FeedAll(e, b, base, y).status == Success
    ensures FeedAll(e, a, base, x).carry.fed == FeedAll(e, b, base, y).carry.fed
  {
    StreamRefines(e, a, base, x);
    StreamRefines(e, b, base, y);
  }

  // ---------------------------------------------------------------- what a header announces

  /** The words a header announces are the words of payload that follow it, whoever reads them:
      48 header bytes and a tag of 16, then four bytes for every word, then the next header. */
  lemma AnnouncedWords(e: Engine, p: Parser, header: seq<Byte>, tag: seq<Byte>, payload: seq<Byte>, b: Byte)
    requires !p.done && p.due == 0 && p.pos == 0 && |header| == 48 && |tag| == 16
    requires var w := e.nextWords(p.fed + Headers(header) + Tags(tag)); 0 < w < 0x4000_0000 && |payload| == 4 * w
    ensures Parse(e, p, header + tag + payload + [b]).fed ==
            p.fed + Headers(header) + Tags(tag) + [Vector] + Payloads(payload) + [Header(b)]
  {
    hide Parse;
    var q := Parse(e, p, header + tag);
    AnnouncedBlock(e, p, header, tag);
    ParseConcat(e, p, header + tag, payload);
    ParsePayload(e, q, payload);
    ParseConcat(e, p, header + tag + payload, [b]);
    ParseHeader(e, Parse(e, q, payload), [b]);
    assert Headers([b]) == [Header(b)];
  }

  /** No words announced: the stream is over, whatever follows. */
  lemma NothingAnnounced(e: Engine, p: Parser, header: seq<Byte>, tag: seq<Byte>, rest: seq<Byte>)
    requires !p.done && p.due == 0 && p.pos == 0 && |header| == 48 && |tag| == 16
    requires e.nextWords(p.fed + Headers(header) + Tags(tag)) == 0
    ensures var q := Parse(e, p, header + tag + rest);
            q.done && q.fed == p.fed + Headers(header) + Tags(tag) + [Vector]
  {
    hide Parse;
    AnnouncedBlock(e, p, header, tag);
    ParseConcat(e, p, header + tag, rest);
    ParseDone(e, Parse(e, p, header + tag), rest);
  }

  lemma AnnouncedBlock(e: Engine, p: Parser, header: seq<Byte>, tag: seq<Byte>)
    requires !p.done && p.due == 0 && p.pos == 0 && |header| == 48 && |tag| == 16
    requires e.nextWords(p.fed + Headers(header) + Tags(tag)) < 0x4000_0000
    ensures var fed := p.fed + Headers(header) + Tags(tag);
            var n := 4 * e.nextWords(fed);
            Parse(e, p, header + tag) == Parser(n, 0, 0, n == 0, fed + [Vector])
  {
    hide Parse;
    hide NextLen;
    AnnouncedLength(e, p.fed + Headers(header) + Tags(tag));
    ParseConcat(e, p, header, tag);
    ParseHeader(e, p, header);
    ParseTag(e, Parse(e, p, header), tag);
  }

  lemma AnnouncedLength(e: Engine, fed: Trace)
    requires e.nextWords(fed) < 0x4000_0000
    ensures NextLen(e, fed) == 4 * e.nextWords(fed)
  {
  }

  /** So the AES engine of a cleanly cut stream gets, wherever a block begins, the header, its
      tag, the vector, as much payload as announced, and the next header. */
  lemma FedAsAnnounced(e: Engine, chunks: seq<seq<Byte>>, base: nat, beyond: seq<Memory>, before: seq<Byte>,
                       header: seq<Byte>, tag: seq<Byte>, payload: seq<Byte>, b: Byte, after: seq<Byte>)
    requires Fits(chunks) && |beyond| == |chunks| && base > 0 && FeedAll(e, chunks, base, beyond).status == Success
    requires forall i :: 0 <= i < |chunks| ==> CleanAt(e, chunks, i)
    requires Concat(chunks) == before + (header + tag + payload + [b]) + after && |header| == 48 && |tag| == 16
    requires var p := Parse(e, START, before); !p.done && p.due == 0 && p.pos == 0
    requires var w := e.nextWords(Parse(e, START, before).fed + Headers(header) + Tags(tag));
             0 < w < 0x4000_0000 && |payload| == 4 * w
    ensures Parse(e, START, before).fed + Headers(header) + Tags(tag) + [Vector] + Payloads(payload) + [Header(b)]
            <= FeedAll(e, chunks, base, beyond).carry.fed
  {
    hide Parse;
    hide FeedAll;
    StreamRefines(e, chunks, base, beyond);
    var block := header + tag + payload + [b];
    ParseConcat(e, START, before, block);
    AnnouncedWords(e, Parse(e, START, before), header, tag, payload, b);
    ParseConcat(e, START, before + block, after);
    ParseGrows(e, Parse(e, START, before + block), after);
  }

  // ---------------------------------------------------------------- what the engine is asked

  /** The vector is fed back only after the tag before it was found good, and a header that
      follows payload only after PCAP was done with it. */
  ghost predicate Supervised(e: Engine, fed: Trace) {
    && (forall k :: 0 <= k < |fed| && fed[k].Vector? ==> e.gcmOk(fed[..k]))
    && (forall k :: 0 < k < |fed| && fed[k].Header? && fed[k - 1].Payload? ==> e.pcapDone(fed[..k]))
  }

  /** PCAP is done with the payload fed last. */
  ghost predicate Settled(e: Engine, fed: Trace) {
    fed != [] && fed[|fed| - 1].Payload? ==> e.pcapDone(fed)
  }

  /** A result is due to what the engine said last. */
  ghost predicate Answered(e: Engine, o: Outcome) {
    match o.status
    case Success => Settled(e, o.carry.fed)
    case PcapError => !e.pcapDone(o.carry.fed)
    case GcmMismatch => !e.gcmOk(o.carry.fed)
    case Wrapped => Settled(e, o.carry.fed)
  }

  lemma SupervisedPayload(e: Engine, fed: Trace, s: seq<Byte>)
    requires Supervised(e, fed)
    ensures Supervised(e, fed + Payloads(s))
  {
    var after := fed + Payloads(s);
    forall k | 0 <= k < |after|
      ensures k < |fed| ==> after[..k] == fed[..k] && after[k] == fed[k]
      ensures k >= |fed| ==> after[k].Payload?
    {
    }
  }

  lemma SupervisedTrailer(e: Engine, fed: Trace, mem: Memory, addr: nat)
    requires Supervised(e, fed) && Settled(e, fed)
    ensures Supervised(e, FeedTrailer(fed, mem, addr)) && Settled(e, FeedTrailer(fed, mem, addr))
  {
    var after := FeedTrailer(fed, mem, addr);
    assert after[..|fed|] == fed;
    forall k | 0 <= k < |after|
      ensures k < |fed| ==> after[..k] == fed[..k] && after[k] == fed[k]
      ensures k >= |fed| ==> after[k].Header? || after[k].Tag?
    {
    }
  }

  lemma SupervisedVector(e: Engine, fed: Trace)
    requires Supervised(e, fed) && e.gcmOk(fed)
    ensures Supervised(e, fed + [Vector]) && Settled(e, fed + [Vector])
  {
    var after := fed + [Vector];
    assert after[..|fed|] == fed;
    forall k | 0 <= k < |fed|
      ensures after[..k] == fed[..k] && after[k] == fed[k]
    {
    }
  }

  /** One chunk keeps the engine's approval. */
  lemma {:induction false} ChunkSupervised(e: Engine, c: Carry, mem: Memory, addr: nat, size: nat)
    requires size + LOOKAHEAD < U32 && Supervised(e, c.fed)
    ensures var o := DecryptChunk(e, c, mem, addr, size);
            Supervised(e, o.carry.fed) && Answered(e, o) && o.status != Wrapped
    decreases size, 3
  {
    hide Supervised;
    var due := c.sizeofData;
    if size <= due && due != 0 {
      var c1 := FeedPayload(c, mem, addr, size).(sizeofData := due - size);
      SupervisedPayload(e, c.fed, Read(mem, addr, size / 4 * 4));
      if e.pcapDone(c1.fed) && c1.sizeofData == 0 {
        TrailerSupervised(e, c1, mem, addr, 0, size);
      }
    } else {
      var c1 := FeedPayload(c, mem, addr, due).(sizeofData := 0);
      SupervisedPayload(e, c.fed, Read(mem, addr, due / 4 * 4));
      if e.pcapDone(c1.fed) {
        if size > due + LOOKAHEAD {
          TrailerSupervised(e, c1, mem, addr + due, addr + due + TRAILER, size - (due + TRAILER));
        } else {
          TrailerSupervised(e, c1, mem, addr + due, 0, size);
        }
      }
    }
  }

  lemma {:induction false} TrailerSupervised(e: Engine, c: Carry, mem: Memory, trailer: nat, at: nat, size: nat)
    requires size + LOOKAHEAD < U32 && Supervised(e, c.fed) && Settled(e, c.fed)
    ensures var o := ReadTrailer(e, c, mem, trailer, at, size);
            Supervised(e, o.carry.fed) && Answered(e, o) && o.status != Wrapped
    decreases size, if at == 0 then 2 else 5
  {
    hide Supervised;
    var c1 := c.(fed := FeedTrailer(c.fed, mem, trailer));
    SupervisedTrailer(e, c.fed, mem, trailer);
    if e.gcmOk(c1.fed) {
      var n := NextLen(e, c1.fed);
      SupervisedVector(e, c1.fed);
      if at != 0 && n != 0 {
        ChunkSupervised(e, Carry(n, n, c1.fed + [Vector]), mem, at, size);
      }
    }
  }

  lemma {:induction false} AllSupervised(e: Engine, chunks: seq<seq<Byte>>, base: nat, beyond: seq<Memory>)
    requires Fits(chunks) && |beyond| == |chunks|
    ensures var o := FeedAll(e, chunks, base, beyond); Supervised(e, o.carry.fed) && Answered(e, o)
    decreases |chunks|
  {
    hide Supervised;
    if chunks == [] {
      NothingFed(e);
    } else {
      var n := |chunks| - 1;
      AllSupervised(e, chunks[..n], base, beyond[..n]);
      var o := FeedAll(e, chunks[..n], base, beyond[..n]);
      var mem, size := Window(chunks[n], base, beyond[n]), |chunks[n]|;
      if o.status == Success {
        if o.carry.nextBlkLen == 0 {
          if size >= TRAILER {
            TrailerSupervised(e, o.carry, mem, base, base + TRAILER, size - TRAILER);
          }
        } else {
          ChunkSupervised(e, o.carry, mem, base, size);
        }
      }
    }
  }

  lemma NothingFed(e: Engine)
    ensures Supervised(e, []) && Settled(e, [])
  {
  }

  /** The engine has no objection to any part of the stream. */
  ghost predicate Approves(e: Engine, bytes: seq<Byte>) {
    forall fed: Trace :: fed <= Parse(e, START, bytes).fed ==> e.gcmOk(fed) && e.pcapDone(fed)
  }

  /** A cleanly cut stream the engine approves of is decrypted to its end. */
  lemma {:induction false} ApprovedSucceeds(e: Engine, chunks: seq<seq<Byte>>, base: nat, beyond: seq<Memory>)
    requires Fits(chunks) && |beyond| == |chunks| && base > 0 && Approves(e, Concat(chunks))
    requires forall i :: 0 <= i < |chunks| ==> CleanAt(e, chunks, i)
    ensures FeedAll(e, chunks, base, beyond).status == Success
    decreases |chunks|
  {
    if chunks != [] {
      var n := |chunks| - 1;
      ApprovedBefore(e, chunks);
      ApprovedSucceeds(e, chunks[..n], base, beyond[..n]);
      StreamRefines(e, chunks, base, beyond);
      AllSupervised(e, chunks, base, beyond);
      NeverWrapped(e, chunks, base, beyond);
    }
  }

  /** What holds of the stream holds without its last chunk. */
  lemma ApprovedBefore(e: Engine, chunks: seq<seq<Byte>>)
    requires chunks != []
    ensures var front := chunks[..|chunks| - 1];
            && (Approves(e, Concat(chunks)) ==> Approves(e, Concat(front)))
            && forall i :: 0 <= i < |front| && CleanAt(e, chunks, i) ==> CleanAt(e, front, i)
  {
    var n := |chunks| - 1;
    var front := chunks[..n];
    ParseConcat(e, START, Concat(front), chunks[n]);
    ParseGrows(e, Parse(e, START, Concat(front)), chunks[n]);
    forall i | 0 <= i < n
      ensures front[..i] == chunks[..i]
    {
    }
  }

  /** A clean opening chunk holds the whole secure header. */
  lemma NeverWrapped(e: Engine, chunks: seq<seq<Byte>>, base: nat, beyond: seq<Memory>)
    requires Fits(chunks) && |beyond| == |chunks| && base > 0 && chunks != []
    requires forall i :: 0 <= i < |chunks| ==> CleanAt(e, chunks, i)
    requires FeedAll(e, chunks[..|chunks| - 1], base, beyond[..|chunks| - 1]).status == Success
    ensures FeedAll(e, chunks, base, beyond).status != Wrapped
  {
    hide Parse;
    hide Supervised;
    hide DecryptChunks;
    var n := |chunks| - 1;
    var front := chunks[..n];
    var o := FeedAll(e, front, base, beyond[..n]);
    ApprovedBefore(e, chunks);
    assert CleanAt(e, chunks, n);
    if n > 0 {
      StreamRefines(e, front, base, beyond[..n]);
      OpenAfterFirst(e, front);
    }
    AllSupervised(e, front, base, beyond[..n]);
    RoomForTrailer(e, o.carry, Window(chunks[n], base, beyond[n]), base, |chunks[n]|);
  }

  /** Only an opening chunk without room for the secure header wraps. */
  lemma RoomForTrailer(e: Engine, c: Carry, mem: Memory, addr: nat, size: nat)
    requires size + LOOKAHEAD < U32 && Supervised(e, c.fed) && Settled(e, c.fed)
    ensures DecryptChunks(e, c, mem, addr, size).status == Wrapped <==> c.nextBlkLen == 0 && size < TRAILER
  {
    hide Supervised;
    hide Settled;
    if c.nextBlkLen != 0 {
      ChunkSupervised(e, c, mem, addr, size);
    } else if size >= TRAILER {
      TrailerSupervised(e, c, mem, addr, addr + TRAILER, size - TRAILER);
    }
  }

  // ---------------------------------------------------------------- the code, in place

  class Decryptor {
    const engine: Engine
    var nextBlkLen: nat
    var sizeofData: nat
    var fed: Trace

    constructor (engine: Engine)
      ensures this.engine == engine && State() == COLD
    {
      this.engine := engine;
      nextBlkLen, sizeofData, fed := 0, 0, [];
    }

    function State(): Carry
      reads this
    {
      Carry(nextBlkLen, sizeofData, fed)
    }

    method DecryptPlChunks(mem: Memory, chunk: nat, chunkSize: nat) returns (status: Status)
      requires chunk > 0 && chunkSize + LOOKAHEAD < U32
      modifies this
      ensures Outcome(status, State()) == DecryptChunks(engine, old(State()), mem, chunk, chunkSize)
    {
      if nextBlkLen == 0 {
        if chunkSize < TRAILER {
          return Wrapped;
        }
        status := DecryptSecureHdr(mem, chunk);
        if status == Success {
          status := DecryptSetUpNextBlk(mem, chunk + TRAILER, chunkSize - TRAILER);
        }
      } else {
        status := DecryptPl(mem, chunk, chunkSize);
      }
    }

    method DecryptPl(mem: Memory, chunk: nat, chunkSize: nat) returns (status: Status)
      requires chunk > 0 && chunkSize + LOOKAHEAD < U32
      modifies this
      ensures Outcome(status, State()) == DecryptChunk(engine, old(State()), mem, chunk, chunkSize)
      decreases chunkSize, 3
    {
      var size := chunkSize;
      var secHdr, nextBlk := chunk, 0;
      if size <= sizeofData && sizeofData != 0 {
        DmaPlCopy(mem, chunk, size / 4);
        sizeofData := sizeofData - size;
      } else {
        secHdr := chunk + sizeofData;
        if chunkSize > sizeofData + HDR_SIZE + HDR_SIZE {
          nextBlk := secHdr + HDR_SIZE + TAG_SIZE;
          size := chunkSize - (sizeofData + HDR_SIZE + TAG_SIZE);
        }
        DmaPlCopy(mem, chunk, sizeofData / 4);
        sizeofData := 0;
      }
      if !engine.pcapDone(fed) {
        return PcapError;
      }
      status := Success;
      if sizeofData == 0 {
        status := DecryptSecureHdr(mem, secHdr);
        if status == Success {
          status := DecryptSetUpNextBlk(mem, nextBlk, size);
        }
      }
    }

    method DecryptSetUpNextBlk(mem: Memory, chunk: nat, chunkSize: nat) returns (status: Status)
      requires chunkSize + LOOKAHEAD < U32
      modifies this
      ensures Outcome(status, State()) == SetUpNextBlk(engine, old(State()), mem, chunk, chunkSize)
      ensures chunk == 0 && engine.nextWords(old(fed)) < 0x4000_0000 ==>
                && nextBlkLen == 4 * engine.nextWords(old(fed)) && sizeofData == nextBlkLen
                && fed == old(fed) + [Vector] && status == Success
      decreases chunkSize, if chunk == 0 then 1 else 4
    {
      nextBlkLen := NextLen(engine, fed);
      fed := fed + [Vector];
      sizeofData := nextBlkLen;
      status := Success;
      if chunk != 0 && sizeofData != 0 {
        status := DecryptPl(mem, chunk, chunkSize);
      }
    }

    method DecryptSecureHdr(mem: Memory, addr: nat) returns (status: Status)
      modifies this`fed
      ensures fed == FeedTrailer(old(fed), mem, addr)
      ensures status == if engine.gcmOk(fed) then Success else GcmMismatch
    {
      fed := fed + Headers(Read(mem, addr, HDR_SIZE));
      fed := fed + Tags(Read(mem, addr + HDR_SIZE, TAG_SIZE));
      status := if engine.gcmOk(fed) then Success else GcmMismatch;
    }

    /** The CSU DMA moves whole words. */
    method DmaPlCopy(mem: Memory, src: nat, words: nat)
      modifies this`fed
      ensures fed == old(fed) + Payloads(Read(mem, src, 4 * words))
    {
      fed := fed + Payloads(Read(mem, src, 4 * words));
    }
  }
}
