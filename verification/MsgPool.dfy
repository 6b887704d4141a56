/** The ring buffer between the board's receive FIFO and its main loop.  A fetched message is
    handed out in place, so its slot must survive until the next fetch. */
module MsgPool {
  import opened Common

  // ---------------------------------------------------------------- positions in the ring

  lemma Wrap(x: nat, n: nat)
    requires n > 0 && x < 2 * n
    ensures x % n == if x < n then x else x - n
  {
    if x >= n {
      assert x == n + (x - n);
    }
  }

  /** Messages between the read and the write position. */
  function Count(r: nat, w: nat, n: nat): (c: nat)
    requires r < n && w < n
    ensures c < n && c == if w >= r then w - r else w + n - r
  {
    if w >= r then w - r else w + n - r
  }

  function Slot(r: nat, i: nat, n: nat): (s: nat)
    requires r < n && i < n
    ensures s < n && s == if r + i < n then r + i else r + i - n
  {
    Wrap(r + i, n);
    (r + i) % n
  }

  /** The full test of the code, the two positions one apart. */
  predicate Full(r: nat, w: nat, n: nat)
    requires r < n && w < n
  {
    (r + n - w) % n == 1
  }

  /** The abstract queue held by a ring. */
  function Queue<F>(pool: seq<F>, r: nat, w: nat): (q: seq<F>)
    requires r < |pool| && w < |pool|
    ensures |q| == Count(r, w, |pool|)
  {
    seq(Count(r, w, |pool|), i requires 0 <= i < Count(r, w, |pool|) => pool[Slot(r, i, |pool|)])
  }

  lemma FullIsFull(r: nat, w: nat, n: nat)
    requires r < n && w < n && n >= 2
    ensures Full(r, w, n) <==> Count(r, w, n) == n - 1
    ensures r == w <==> Count(r, w, n) == 0
  {
    Wrap(r + n - w, n);
  }

  /** The slot last handed out: the one before the read position. */
  function Handed(r: nat, n: nat): (s: nat)
    requires r < n
    ensures s < n
  {
    if r == 0 then n - 1 else r - 1
  }

  /** A push adds to the end of the queue and leaves the slot last handed out alone, in a ring
      of any size; only N - 1 messages fit for that reason. */
  lemma PushRefines<F>(pool: seq<F>, r: nat, w: nat, f: F)
    requires r < |pool| && w < |pool| && |pool| >= 2 && !Full(r, w, |pool|)
    ensures var after := pool[w := f];
            && Queue(after, r, (w + 1) % |pool|) == Queue(pool, r, w) + [f]
            && w != Handed(r, |pool|) && after[Handed(r, |pool|)] == pool[Handed(r, |pool|)]
  {
    FullIsFull(r, w, |pool|);
    Wrap(w + 1, |pool|);
  }

  lemma FetchRefines<F>(pool: seq<F>, r: nat, w: nat)
    requires r < |pool| && w < |pool| && r != w
    ensures var q := Queue(pool, r, w);
            && q != [] && pool[r] == q[0]
            && Queue(pool, (r + 1) % |pool|, w) == q[1..]
            && Handed((r + 1) % |pool|, |pool|) == r
  {
    Wrap(r + 1, |pool|);
  }

  // ---------------------------------------------------------------- the bounded queue

  /** What the queue keeps of a series of frames: empty frames are skipped, and frames that
      find it full are dropped. */
  function Received<F>(q: seq<F>, frames: seq<Option<F>>, capacity: nat): seq<F> {
    if frames == [] then q
    else
      var before := Received(q, frames[..|frames| - 1], capacity);
      var last := frames[|frames| - 1];
      if last.Some? && |before| < capacity then before + [last.value] else before
  }

  /** A slow reader loses the newest frames, never the order: what is kept extends the queue by
      the first frames that fit. */
  lemma {:induction false} ReceivedKeepsOrder<F>(q: seq<F>, frames: seq<Option<F>>, capacity: nat)
    requires |q| <= capacity
    ensures Received(q, frames, capacity) == q + FirstFit(Payload(frames), capacity - |q|)
    decreases |frames|
  {
    if frames != [] {
      ReceivedKeepsOrder(q, frames[..|frames| - 1], capacity);
    } else {
      assert q + [] == q;
    }
  }

  /** The frames that carry something. */
  function Payload<F>(frames: seq<Option<F>>): seq<F> {
    if frames == [] then []
    else
      var last := frames[|frames| - 1];
      Payload(frames[..|frames| - 1]) + if last.Some? then [last.value] else []
  }

  function FirstFit<F>(s: seq<F>, n: nat): seq<F> {
    if |s| <= n then s else s[..n]
  }

  // ---------------------------------------------------------------- the code, in place

  class Pool<F(0)> {
    const pool: array<F>
    var rPos: nat
    var wPos: nat
    ghost var accepted: seq<F> // pushed with success, ever
    ghost var fetched: seq<F>  // fetched, ever

    constructor (space: nat)
      requires space >= 2
      ensures Valid() && pool.Length == space && Contents() == [] && accepted == [] && fetched == [] && fresh(pool)
    {
      pool := new F[space];
      rPos, wPos, accepted, fetched := 0, 0, [], [];
    }

    ghost function Contents(): (q: seq<F>)
      requires rPos < pool.Length && wPos < pool.Length
      reads this, pool
    {
      Queue(pool[..], rPos, wPos)
    }

    /** First in, first out, over the whole life of the pool; and the message last fetched is
        still in its slot. */
    ghost predicate Valid()
      reads this, pool
    {
      && pool.Length >= 2 && rPos < pool.Length && wPos < pool.Length
      && |Contents()| <= pool.Length - 1
      && accepted == fetched + Contents()
      && (fetched != [] ==> pool[Handed(rPos, pool.Length)] == fetched[|fetched| - 1])
    }

    method IsFull() returns (full: bool)
      requires Valid()
      ensures full <==> |Contents()| == pool.Length - 1
    {
      FullIsFull(rPos, wPos, pool.Length);
      full := 1 == (rPos + pool.Length - wPos) % pool.Length;
    }

    method IsEmpty() returns (empty: bool)
      requires Valid()
      ensures empty <==> Contents() == []
    {
      FullIsFull(rPos, wPos, pool.Length);
      empty := rPos == wPos;
    }

    /** msg_pool_push: 0, or 1 when the pool is full. */
    method Push(f: F) returns (status: nat)
      requires Valid()
      modifies this`wPos, this`accepted, pool
      ensures Valid()
      ensures status == if |old(Contents())| < pool.Length - 1 then 0 else 1
      ensures Contents() == if status == 0 then old(Contents()) + [f] else old(Contents())
      ensures pool[Handed(rPos, pool.Length)] == old(pool[Handed(rPos, pool.Length)])
    {
      hide Queue;
      hide Handed;
      var full := IsFull();
      if full {
        return 1;
      }
      FullIsFull(rPos, wPos, pool.Length);
      PushRefines(pool[..], rPos, wPos, f);
      ghost var before := pool[..];
      pool[wPos] := f;
      assert pool[..] == before[wPos := f];
      wPos := (wPos + 1) % pool.Length;
      accepted := accepted + [f];
      assert accepted == fetched + Contents();
      status := 0;
    }

    /** FifoReceive: push every frame that is not empty. */
    method FifoReceive(frames: seq<Option<F>>)
      requires Valid()
      modifies this`wPos, this`accepted, pool
      ensures Valid()
      ensures Contents() == Received(old(Contents()), frames, pool.Length - 1)
      ensures pool[Handed(rPos, pool.Length)] == old(pool[Handed(rPos, pool.Length)])
    {
      for k := 0 to |frames|
        invariant Valid() && Contents() == Received(old(Contents()), frames[..k], pool.Length - 1)
        invariant pool[Handed(rPos, pool.Length)] == old(pool[Handed(rPos, pool.Length)])
      {
        assert frames[..k + 1][..k] == frames[..k];
        if frames[k].Some? {
          var status := Push(frames[k].value);
        }
      }
      assert frames[..|frames|] == frames;
    }

    /** Hand out the oldest message where it lies. */
    method HandOut() returns (slot: nat)
      requires Valid() && Contents() != []
      modifies this`rPos, this`fetched
      ensures Valid() && slot == Handed(rPos, pool.Length)
      ensures pool[slot] == old(Contents())[0] && Contents() == old(Contents())[1..]
      ensures fetched == old(fetched) + [pool[slot]]
    {
      slot := rPos;
      FullIsFull(rPos, wPos, pool.Length);
      FetchRefines(pool[..], rPos, wPos);
      ghost var q := Contents();
      assert fetched + q == (fetched + [q[0]]) + q[1..];
      hide Queue;
      fetched := fetched + [pool[rPos]];
      rPos := (rPos + 1) % pool.Length;
    }

    /** The slot handed out by msg_pool_fetch, or none after the timeout; `arrivals` is what the
        receive FIFO holds at each poll. */
    method Fetch(arrivals: nat -> seq<Option<F>>, timeoutMs: nat) returns (slot: Option<nat>, polls: nat)
      requires Valid()
      modifies this, pool
      ensures Valid()
      ensures polls > 0
      ensures slot.Some? ==>
                && slot.value == Handed(rPos, pool.Length) && fetched == old(fetched) + [pool[slot.value]]
                && [pool[slot.value]] + Contents() == Polled(old(Contents()), arrivals, polls, pool.Length - 1)
      ensures slot.None? ==>
                && Contents() == [] == Polled(old(Contents()), arrivals, polls, pool.Length - 1)
                    && fetched == old(fetched)
                && polls == timeoutMs + 1
    {
      hide Queue;
      var waitUs, timeoutUs := 0, timeoutMs * 1000;
      polls := 0;
      while true
        invariant Valid() && fetched == old(fetched) && waitUs == polls * 1000 && polls <= timeoutMs
        invariant Contents() == Polled(old(Contents()), arrivals, polls, pool.Length - 1)
        decreases timeoutMs - polls
      {
        FifoReceive(arrivals(polls));
        polls := polls + 1;
        var empty := IsEmpty();
        if !empty {
          var head := HandOut();
          return Some(head), polls;
        }
        if waitUs >= timeoutUs {
          return None, polls;
        }
        waitUs := waitUs + 1000;
      }
    }
  }

  /** The queue after some polls of the receive FIFO. */
  function Polled<F>(q: seq<F>, arrivals: nat -> seq<Option<F>>, polls: nat, capacity: nat): seq<F> {
    if polls == 0 then q else Received(Polled(q, arrivals, polls - 1, capacity), arrivals(polls - 1), capacity)
  }
}
